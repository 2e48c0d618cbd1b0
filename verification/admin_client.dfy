/** The admin client of the backends: a request to one of two URL prefixes, the detection
    of the right one by a probe, and the process-wide prefix cache that concurrent calls
    share. Every `await` is one step, so calls interleave freely over the cache; the
    network decides the answers. */
module AdminClient {
  import opened Prelude

  /** The candidates, in the order of detection. */
  datatype Prefix = Billing | V1

  /** Detect: `GET /products`, the one path that detection probes. */
  datatype Kind = Detect | Get | Post | Patch
  datatype NotFoundSemantics = Contract | User | Extension
  datatype Request = Request(backend: int, kind: Kind, notFound: NotFoundSemantics)

  datatype Body = NotJson | NotObject | Object
  datatype Answer = Timeout | Transport | Status(code: int, body: Body)

  datatype Reason = RNotFound | RTimeout | RTransport | RRedirect | RRejected
                  | RHttp4xx | RHttp5xx | RBadJson | RSchemaMismatch
  datatype Error = NotSupported | ExtensionNotSupported | UserNotFound | Rejected | BadRequest | Conflict
                 | Unavailable | ResponseUnusable | UpstreamStatus(code: int)
  datatype Outcome = Returned | Failed(reason: Reason, error: Error)

  function StatusReason(code: int): Reason {
    if 300 <= code < 400 then RRedirect else if 400 <= code < 500 then RHttp4xx else RHttp5xx
  }

  function Parse(code: int, body: Body): Outcome {
    if code == 401 || code == 403 then Failed(RRejected, Rejected)
    else if code == 400 || code == 422 then Failed(RHttp4xx, BadRequest)
    else if code == 409 then Failed(RHttp4xx, Conflict)
    else if 200 <= code < 300 then
      match body
      case NotJson => Failed(RBadJson, ResponseUnusable)
      case NotObject => Failed(RSchemaMismatch, ResponseUnusable)
      case Object => Returned
    else Failed(StatusReason(code), UpstreamStatus(code))
  }

  /** While detecting, 404 everywhere means one thing, whatever the caller's semantics. */
  function NotFoundError(semantics: NotFoundSemantics, detecting: bool): Outcome {
    if detecting || semantics == Contract then Failed(RNotFound, NotSupported)
    else if semantics == User then Failed(RNotFound, UserNotFound)
    else Failed(RNotFound, ExtensionNotSupported)
  }

  // ---------------------------------------------------------------- one call, step by step

  datatype Pc =
    | Idle
    | Detecting(own: bool, prefix: Prefix)  // both candidates are tried; own: the call is itself the probe
    | Reread                                // the probe succeeded; the cache is about to be read again
    | Sending(prefix: Prefix)               // the call's own exchange with a known prefix
    | Done(outcome: Outcome)

  datatype Exchange = Exchange(own: bool, prefix: Prefix)

  /** `answers[k]` answers `sent[k]`; one more may be on its way. */
  datatype Call = Call(req: Request, pc: Pc, sent: seq<Exchange>, answers: seq<Answer>)

  type Cache = map<int, Prefix>

  predicate Awaiting(pc: Pc) { pc.Detecting? || pc.Sending? }

  /** Runs a call from one suspension point to the next, on the cache as it finds it. The
      answer matters only to a call that awaits one. Every prefix that answers with
      anything but 404 is remembered, before the answer is looked at. */
  function Move(cache: Cache, req: Request, pc: Pc, a: Answer): (Cache, Pc) {
    match pc
    case Done(_) => (cache, pc)
    case Idle =>
      (cache, if req.backend in cache then Sending(cache[req.backend]) else Detecting(req.kind == Detect, Billing))
    case Reread =>
      (cache, if req.backend in cache then Sending(cache[req.backend]) else Done(Failed(RNotFound, NotSupported)))
    case Detecting(own, p) =>
      if a.Status? && a.code == 404 then
        (cache, if p == Billing then Detecting(own, V1) else Done(NotFoundError(req.notFound, true)))
      else if a.Status? then
        var result := Parse(a.code, a.body);
        (cache[req.backend := p], if own || result != Returned then Done(result) else Reread)
      else (cache, Done(NoAnswer(a)))
    case Sending(p) =>
      if a.Status? && a.code == 404 then (cache, Done(NotFoundError(req.notFound, false)))
      else if a.Status? then (cache[req.backend := p], Done(Parse(a.code, a.body)))
      else (cache, Done(NoAnswer(a)))
  }

  function NoAnswer(a: Answer): Outcome {
    if a == Timeout then Failed(RTimeout, Unavailable) else Failed(RTransport, Unavailable)
  }

  /** The same with the call's record kept: moving to an awaiting point sends a request. */
  function Advance(cache: Cache, c: Call, a: Answer): (Cache, Call) {
    var (cache', pc) := Move(cache, c.req, c.pc, a);
    (cache', Call(c.req, pc,
                  if Awaiting(pc) then c.sent + [Exchange(pc.Sending? || pc.own, pc.prefix)] else c.sent,
                  if Awaiting(c.pc) then c.answers + [a] else c.answers))
  }

  // ---------------------------------------------------------------- all calls together

  datatype State = State(cache: Cache, calls: seq<Call>)

  function Step(s: State, i: nat, a: Answer): State
    requires i < |s.calls|
  {
    var (cache, c) := Advance(s.cache, s.calls[i], a);
    State(cache, s.calls[i := c])
  }

  type Schedule = seq<(nat, Answer)>

  predicate Fits(s: State, sch: Schedule) { forall k | 0 <= k < |sch| :: sch[k].0 < |s.calls| }

  /** Any interleaving: each entry resumes one call, with one answer. */
  function Run(s: State, sch: Schedule): (end: State)
    requires Fits(s, sch)
    ensures |end.calls| == |s.calls|
    decreases |sch|
  {
    if sch == [] then s else Run(Step(s, sch[0].0, sch[0].1), sch[1..])
  }

  ghost predicate Initial(s: State) {
    forall i | 0 <= i < |s.calls| :: s.calls[i] == Call(s.calls[i].req, Idle, [], [])
  }

  // ---------------------------------------------------------------- what one call can have done

  predicate Is404(a: Answer) { a.Status? && a.code == 404 }

  function Probes(own: bool, n: nat): seq<Exchange>
    requires n <= 2
  {
    if n == 0 then [] else if n == 1 then [Exchange(own, Billing)] else [Exchange(own, Billing), Exchange(own, V1)]
  }

  /** The exchanges of a call that has made `n` detection attempts and, if `last` is given,
      then sent its own request to that prefix. */
  ghost predicate Sent(c: Call, n: nat, last: Option<Prefix>) {
    && n <= 2
    && c.sent == Probes(c.req.kind == Detect, n) + (if last.Some? then [Exchange(true, last.value)] else [])
    && (last.Some? && n > 0 ==> c.req.kind != Detect)
    && (|c.answers| >= 2 && n == 2 ==> Is404(c.answers[0]))
  }

  ghost predicate Shape(c: Call) {
    match c.pc
    case Idle => c.sent == [] && c.answers == []
    case Detecting(own, p) =>
      && own == (c.req.kind == Detect)
      && Sent(c, if p == Billing then 1 else 2, None)
      && |c.answers| == |c.sent| - 1
      && (p == V1 ==> Is404(c.answers[0]))
    case Reread => c.req.kind != Detect && |c.answers| == |c.sent| && exists n :: 1 <= n && Sent(c, n, None)
    case Sending(p) => |c.answers| == |c.sent| - 1 && exists n :: Sent(c, n, Some(p))
    case Done(o) =>
      && |c.answers| == |c.sent| > 0
      && ((exists n :: Sent(c, n, None)) || (exists n, p :: Sent(c, n, Some(p))))
      && (o == Failed(RNotFound, NotSupported) <==> FoundNowhere(c))
  }

  /** When a call reports that the contract is not supported: both candidates answered
      404 to its detection, or its own path did and the caller reads that as such. */
  ghost predicate FoundNowhere(c: Call) {
    var n := |c.answers|;
    && n > 0 && Is404(c.answers[n - 1])
    && ((n >= 2 && c.sent == Probes(c.req.kind == Detect, 2) && Is404(c.answers[0])) || c.req.notFound == Contract)
  }

  lemma DetectingKeepsShape(cache: Cache, c: Call, a: Answer)
    requires Shape(c) && c.pc.Detecting?
    ensures Shape(Advance(cache, c, a).1)
  {
    var d := Advance(cache, c, a).1;
    if !d.pc.Detecting? { assert Sent(d, if c.pc.prefix == Billing then 1 else 2, None); }
  }

  lemma SendingKeepsShape(cache: Cache, c: Call, a: Answer)
    requires Shape(c) && (c.pc.Sending? || c.pc == Idle || (c.pc == Reread && c.req.backend in cache))
    ensures Shape(Advance(cache, c, a).1)
  {
    var d := Advance(cache, c, a).1;
    match c.pc
    case Idle => if c.req.backend in cache { assert Sent(d, 0, Some(cache[c.req.backend])); }
    case Reread => var n :| 1 <= n && Sent(c, n, None); assert Sent(d, n, Some(cache[c.req.backend]));
    case Sending(p) =>
      var n :| Sent(c, n, Some(p));
      assert Sent(d, n, Some(p));
      assert d.sent[|d.sent| - 1] == Exchange(true, p) && (c.req.kind == Detect ==> |d.sent| == 1);
  }

  lemma AdvanceKeepsShape(cache: Cache, c: Call, a: Answer)
    requires Shape(c) && (c.pc == Reread ==> c.req.backend in cache)
    ensures var (cache', d) := Advance(cache, c, a);
      && Shape(d) && d.req == c.req
      && cache.Keys <= cache'.Keys
      && (d.pc == Reread ==> d.req.backend in cache')
  {
    if c.pc.Detecting? { DetectingKeepsShape(cache, c, a); }
    else if !c.pc.Done? { SendingKeepsShape(cache, c, a); }
  }

  /** What every interleaving keeps: the shape of each call, no loss from the cache, and a
      cache entry for every call about to read it again. */
  ghost predicate Inv(s: State) {
    forall i | 0 <= i < |s.calls| ::
      Shape(s.calls[i]) && (s.calls[i].pc == Reread ==> s.calls[i].req.backend in s.cache)
  }

  lemma StepKeepsInv(s: State, i: nat, a: Answer)
    requires Inv(s) && i < |s.calls|
    ensures Inv(Step(s, i, a)) && s.cache.Keys <= Step(s, i, a).cache.Keys
  {
    AdvanceKeepsShape(s.cache, s.calls[i], a);
  }

  lemma {:induction false} RunKeepsInv(s: State, sch: Schedule)
    requires Inv(s) && Fits(s, sch)
    ensures Inv(Run(s, sch)) && |Run(s, sch).calls| == |s.calls|
    ensures s.cache.Keys <= Run(s, sch).cache.Keys
    ensures forall i | 0 <= i < |s.calls| :: Run(s, sch).calls[i].req == s.calls[i].req
    decreases |sch|
  {
    if sch != [] {
      StepKeepsInv(s, sch[0].0, sch[0].1);
      AdvanceKeepsShape(s.cache, s.calls[sch[0].0], sch[0].1);
      RunKeepsInv(Step(s, sch[0].0, sch[0].1), sch[1..]);
    }
  }

  ghost function OwnCount(sent: seq<Exchange>): nat {
    if sent == [] then 0 else (if sent[0].own then 1 else 0) + OwnCount(sent[1..])
  }

  /** In every interleaving: at most three requests per call, of which a call other than
      the probe itself sends its own at most once, and last. */
  lemma RequestsAreBounded(s: State, sch: Schedule, i: nat)
    requires Initial(s) && Fits(s, sch) && i < |s.calls|
    ensures var c := Run(s, sch).calls[i];
      && |c.sent| <= 3
      && (c.req.kind != Detect ==> OwnCount(c.sent) <= 1)
      && (c.req.kind != Detect ==> forall k | 0 <= k < |c.sent| && c.sent[k].own :: k == |c.sent| - 1)
  {
    RunKeepsInv(s, sch);
    var c := Run(s, sch).calls[i];
    if c.pc != Idle {
      var n, last := Witness(c);
      if c.req.kind != Detect { CountProbes(n, last); }
    }
  }

  lemma Witness(c: Call) returns (n: nat, last: Option<Prefix>)
    requires Shape(c) && c.pc != Idle
    ensures Sent(c, n, last)
  {
    match c.pc
    case Detecting(_, p) => n, last := if p == Billing then 1 else 2, None;
    case Reread => n :| Sent(c, n, None); last := None;
    case Sending(p) => n :| Sent(c, n, Some(p)); last := Some(p);
    case Done(_) =>
      if m :| Sent(c, m, None) { n, last := m, None; }
      else { var m, p :| Sent(c, m, Some(p)); n, last := m, Some(p); }
  }

  lemma CountProbes(n: nat, last: Option<Prefix>)
    requires n <= 2
    ensures OwnCount(Probes(false, n) + (if last.Some? then [Exchange(true, last.value)] else [])) <= 1
  {
    var tail := if last.Some? then [Exchange(true, last.value)] else [];
    assert OwnCount(tail) <= 1;
    assert Probes(false, 0) + tail == tail;
    assert (Probes(false, 1) + tail)[1..] == tail;
    assert (Probes(false, 2) + tail)[1..][1..] == tail;
  }

  /** A call reports "contract not supported" exactly if FoundNowhere; in particular the
      branch for a probe that left no cache entry is never taken. */
  lemma NotSupportedIsEarned(s: State, sch: Schedule, i: nat)
    requires Initial(s) && Fits(s, sch) && i < |s.calls|
    ensures var c := Run(s, sch).calls[i];
      && (c.pc == Reread ==> c.req.backend in Run(s, sch).cache)
      && (c.pc.Done? ==> (c.pc.outcome == Failed(RNotFound, NotSupported) <==> FoundNowhere(c)))
  {
    RunKeepsInv(s, sch);
    assert Shape(Run(s, sch).calls[i]);
  }

  // ---------------------------------------------------------------- what an outcome tells

  /** The failures tell the answers apart: only a 2xx object is returned, and an unusable
      response always means that the backend had confirmed the operation. */
  lemma ParseSaysWhy(code: int, body: Body)
    ensures var o := Parse(code, body);
      && (o == Returned <==> 200 <= code < 300 && body == Object)
      && (o == Failed(RBadJson, ResponseUnusable) <==> 200 <= code < 300 && body == NotJson)
      && (o == Failed(RSchemaMismatch, ResponseUnusable) <==> 200 <= code < 300 && body == NotObject)
      && (o == Failed(RRejected, Rejected) <==> code in {401, 403})
      && (o == Failed(RHttp4xx, BadRequest) <==> code in {400, 422})
      && (o == Failed(RHttp4xx, Conflict) <==> code == 409)
      && (o.Failed? ==> o.reason != RNotFound && o.reason != RTimeout && o.reason != RTransport)
  {
  }

  /** A finished call says what its last answer was; it returns a body only if that was the
      answer to a request of its own. */
  ghost predicate Explained(c: Call) {
    c.pc.Done? ==>
      && |c.answers| == |c.sent| > 0
      && var o, n := c.pc.outcome, |c.answers| - 1;
         match c.answers[n]
         case Timeout => o == Failed(RTimeout, Unavailable)
         case Transport => o == Failed(RTransport, Unavailable)
         case Status(code, body) =>
           if code == 404 then o == NotFoundError(c.req.notFound, true) || o == NotFoundError(c.req.notFound, false)
           else o == Parse(code, body) && (o == Returned ==> c.sent[n].own)
  }

  lemma AdvanceKeepsExplained(cache: Cache, c: Call, a: Answer)
    requires Shape(c) && Explained(c) && (c.pc == Reread ==> c.req.backend in cache)
    ensures Explained(Advance(cache, c, a).1)
  {
    if Awaiting(c.pc) {
      LastSent(c);
      assert Advance(cache, c, a).1.answers[|c.answers|] == a;
    }
  }

  /** In every interleaving a finished call reports its own last answer. */
  lemma {:induction false} OutcomesAreExplained(s: State, sch: Schedule)
    requires Inv(s) && Fits(s, sch) && forall i | 0 <= i < |s.calls| :: Explained(s.calls[i])
    ensures forall i | 0 <= i < |s.calls| :: Explained(Run(s, sch).calls[i])
    decreases |sch|
  {
    if sch != [] {
      var (i, a) := sch[0];
      StepKeepsInv(s, i, a);
      AdvanceKeepsExplained(s.cache, s.calls[i], a);
      OutcomesAreExplained(Step(s, i, a), sch[1..]);
    }
  }

  /** A finished call as its caller sees it: each outcome and the last answers it stands for. */
  ghost predicate Told(c: Call)
    requires |c.answers| == |c.sent| > 0
  {
    var a, own := c.answers[|c.answers| - 1], c.sent[|c.answers| - 1].own;
    && (c.pc == Done(Failed(RTimeout, Unavailable)) <==> a == Timeout)
    && (c.pc == Done(Failed(RTransport, Unavailable)) <==> a == Transport)
    && ToldOf404(c, a)
    && (c.pc == Done(Returned) <==> own && a.Status? && 200 <= a.code < 300 && a.body == Object)
    && (c.pc == Done(Failed(RBadJson, ResponseUnusable)) <==> a.Status? && 200 <= a.code < 300 && a.body == NotJson)
    && (c.pc == Done(Failed(RSchemaMismatch, ResponseUnusable))
        <==> a.Status? && 200 <= a.code < 300 && a.body == NotObject)
    && (c.pc == Done(Failed(RRejected, Rejected)) <==> a.Status? && a.code in {401, 403})
    && (c.pc == Done(Failed(RHttp4xx, BadRequest)) <==> a.Status? && a.code in {400, 422})
    && (c.pc == Done(Failed(RHttp4xx, Conflict)) <==> a.Status? && a.code == 409)
    && ToldOfStatus(c, a)
  }

  ghost predicate ToldOf404(c: Call, a: Answer) {
    var here := a.Status? && a.code == 404 && !FoundNowhere(c);
    && (c.pc == Done(Failed(RNotFound, NotSupported)) <==> FoundNowhere(c))
    && (c.pc == Done(Failed(RNotFound, UserNotFound)) <==> here && c.req.notFound == User)
    && (c.pc == Done(Failed(RNotFound, ExtensionNotSupported)) <==> here && c.req.notFound == Extension)
  }

  /** Any other status is passed on, with the class it belongs to. */
  ghost predicate ToldOfStatus(c: Call, a: Answer) {
    forall code ::
      && (c.pc == Done(Failed(RRedirect, UpstreamStatus(code))) <==> a.Status? && a.code == code && 300 <= code < 400)
      && (c.pc == Done(Failed(RHttp4xx, UpstreamStatus(code)))
          <==> a.Status? && a.code == code && 400 <= code < 500 && code !in {400, 401, 403, 404, 409, 422})
      && (c.pc == Done(Failed(RHttp5xx, UpstreamStatus(code)))
          <==> a.Status? && a.code == code && (code < 200 || 500 <= code))
  }

  lemma ExplainedIsTold(c: Call)
    requires Explained(c) && Shape(c) && c.pc.Done?
    ensures Told(c)
  {
    var a := c.answers[|c.answers| - 1];
    assert c.pc.outcome == Failed(RNotFound, NotSupported) <==> FoundNowhere(c);
    assert FoundNowhere(c) ==> Is404(a);
    if a.Status? && a.code != 404 { ParseSaysWhy(a.code, a.body); }
  }

  /** In every interleaving each outcome of a finished call stands for exactly its own last
      answers: a body for a 2xx with an object to a request of its own, a missing user or
      extension for a 404 on a path of that kind unless both candidates denied the contract,
      and so on for every failure. */
  lemma OutcomeTellsTheAnswer(s: State, sch: Schedule, i: nat)
    requires Initial(s) && Fits(s, sch) && i < |s.calls| && Run(s, sch).calls[i].pc.Done?
    ensures var c := Run(s, sch).calls[i]; |c.answers| == |c.sent| > 0 && Told(c)
  {
    OutcomesAreExplained(s, sch);
    RunKeepsInv(s, sch);
    assert Explained(Run(s, sch).calls[i]) && Shape(Run(s, sch).calls[i]);
    ExplainedIsTold(Run(s, sch).calls[i]);
  }

  // ---------------------------------------------------------------- termination

  function Rank(pc: Pc): nat {
    match pc
    case Idle => 5
    case Detecting(_, p) => if p == Billing then 4 else 3
    case Reread => 2
    case Sending(_) => 1
    case Done(_) => 0
  }

  function Turns(sch: Schedule, i: nat): nat {
    if sch == [] then 0 else (if sch[0].0 == i then 1 else 0) + Turns(sch[1..], i)
  }

  /** Five resumptions finish any call, whatever the other calls do in between. */
  lemma {:induction false} CallFinishes(s: State, sch: Schedule, i: nat)
    requires Fits(s, sch) && i < |s.calls| && Turns(sch, i) >= Rank(s.calls[i].pc)
    ensures |Run(s, sch).calls| == |s.calls| && Run(s, sch).calls[i].pc.Done?
    decreases |sch|
  {
    if sch != [] {
      CallFinishes(Step(s, sch[0].0, sch[0].1), sch[1..], i);
    }
  }

  // ---------------------------------------------------------------- where cached prefixes come from

  /** Some exchange of the call got an answer other than 404 from the prefix. */
  ghost predicate GotAnswerFrom(c: Call, p: Prefix) {
    exists k | 0 <= k < |c.answers| && k < |c.sent| ::
      c.sent[k].prefix == p && c.answers[k].Status? && c.answers[k].code != 404
  }

  ghost predicate Vouched(s: State, b: int, p: Prefix) {
    exists i | 0 <= i < |s.calls| :: s.calls[i].req.backend == b && GotAnswerFrom(s.calls[i], p)
  }

  ghost predicate AllVouched(s: State, start: Cache) {
    forall b | b in s.cache :: (b in start && start[b] == s.cache[b]) || Vouched(s, b, s.cache[b])
  }

  lemma AdvanceKeepsAnswers(cache: Cache, c: Call, a: Answer, p: Prefix)
    requires GotAnswerFrom(c, p)
    ensures GotAnswerFrom(Advance(cache, c, a).1, p)
  {
    var d := Advance(cache, c, a).1;
    var k :| 0 <= k < |c.answers| && k < |c.sent| && c.sent[k].prefix == p
          && c.answers[k].Status? && c.answers[k].code != 404;
    assert d.sent[k] == c.sent[k] && d.answers[k] == c.answers[k];
  }

  lemma AnswerIsRecorded(cache: Cache, c: Call, a: Answer)
    requires Shape(c) && Awaiting(c.pc) && a.Status? && a.code != 404
    ensures GotAnswerFrom(Advance(cache, c, a).1, c.pc.prefix)
  {
    var d := Advance(cache, c, a).1;
    LastSent(c);
    assert d.answers[|c.answers|] == a && d.sent[|c.answers|] == c.sent[|c.answers|];
  }

  lemma StepKeepsVouched(s: State, i: nat, a: Answer, start: Cache)
    requires Inv(s) && AllVouched(s, start) && i < |s.calls|
    ensures AllVouched(Step(s, i, a), start)
  {
    var t, c := Step(s, i, a), s.calls[i];
    forall b | b in s.cache && Vouched(s, b, s.cache[b]) ensures Vouched(t, b, s.cache[b]) {
      var j :| 0 <= j < |s.calls| && s.calls[j].req.backend == b && GotAnswerFrom(s.calls[j], s.cache[b]);
      if j == i { AdvanceKeepsAnswers(s.cache, c, a, s.cache[b]); }
      assert GotAnswerFrom(t.calls[j], s.cache[b]);
    }
    if Awaiting(c.pc) && a.Status? && a.code != 404 {
      AnswerIsRecorded(s.cache, c, a);
      assert GotAnswerFrom(t.calls[i], c.pc.prefix);
    }
  }

  lemma LastSent(c: Call)
    requires Shape(c) && Awaiting(c.pc)
    ensures |c.sent| == |c.answers| + 1
    ensures c.sent[|c.answers|] == Exchange(c.pc.Sending? || c.pc.own, c.pc.prefix)
  {
    var n, last := Witness(c);
    if c.pc.Sending? { var m :| Sent(c, m, Some(c.pc.prefix)); }
  }

  /** Every cached prefix was there at the start or answered some request to that backend
      with something other than 404. */
  lemma {:induction false} CachedPrefixAnswered(s: State, sch: Schedule, start: Cache)
    requires Inv(s) && Fits(s, sch) && AllVouched(s, start)
    ensures AllVouched(Run(s, sch), start)
    decreases |sch|
  {
    if sch != [] {
      StepKeepsInv(s, sch[0].0, sch[0].1);
      StepKeepsVouched(s, sch[0].0, sch[0].1, start);
      CachedPrefixAnswered(Step(s, sch[0].0, sch[0].1), sch[1..], start);
    }
  }

  /** The prefix of the last answer other than 404 that a run gets from a backend. */
  function LastHeard(s: State, sch: Schedule, b: int): Option<Prefix>
    requires Fits(s, sch)
    decreases |sch|
  {
    if sch == [] then None
    else
      var c, a := s.calls[sch[0].0], sch[0].1;
      var later := LastHeard(Step(s, sch[0].0, a), sch[1..], b);
      if later.Some? then later
      else if Awaiting(c.pc) && a.Status? && a.code != 404 && c.req.backend == b then Some(c.pc.prefix)
      else None
  }

  function Lookup(cache: Cache, b: int): Option<Prefix> { if b in cache then Some(cache[b]) else None }

  /** The cache is the memory of the last answer: what it holds for a backend is the prefix
      that last answered with anything but 404, or what it held at the start. */
  lemma {:induction false} CacheIsLastHeard(s: State, sch: Schedule, b: int)
    requires Fits(s, sch)
    ensures Lookup(Run(s, sch).cache, b) ==
      if LastHeard(s, sch, b).Some? then LastHeard(s, sch, b) else Lookup(s.cache, b)
    decreases |sch|
  {
    if sch != [] { CacheIsLastHeard(Step(s, sch[0].0, sch[0].1), sch[1..], b); }
  }

  // ---------------------------------------------------------------- when the cache is right

  ghost predicate RightCache(right: int -> Prefix, cache: Cache) { forall b | b in cache :: cache[b] == right(b) }

  /** Right at the start and after every step. */
  ghost predicate StaysRight(right: int -> Prefix, s: State, sch: Schedule)
    requires Fits(s, sch)
    decreases |sch|
  {
    RightCache(right, s.cache) && (sch != [] ==> StaysRight(right, Step(s, sch[0].0, sch[0].1), sch[1..]))
  }

  /** A wrong prefix answers with something other than 404. */
  predicate Misleads(right: int -> Prefix, c: Call, a: Answer) {
    Awaiting(c.pc) && a.Status? && a.code != 404 && c.pc.prefix != right(c.req.backend)
  }

  predicate NothingMisleads(right: int -> Prefix, s: State, sch: Schedule)
    requires Fits(s, sch)
    decreases |sch|
  {
    sch != [] ==>
      !Misleads(right, s.calls[sch[0].0], sch[0].1) && NothingMisleads(right, Step(s, sch[0].0, sch[0].1), sch[1..])
  }

  /** Exactly when the cache holds only right prefixes throughout a run: it does at the
      start, and no wrong prefix ever answers with anything but 404. */
  lemma {:induction false} RightPrefixOnly(right: int -> Prefix, s: State, sch: Schedule)
    requires Fits(s, sch)
    ensures StaysRight(right, s, sch) <==> RightCache(right, s.cache) && NothingMisleads(right, s, sch)
    decreases |sch|
  {
    if sch != [] {
      var (i, a) := sch[0];
      if RightCache(right, s.cache) { OneStepRight(right, s, i, a); }
      RightPrefixOnly(right, Step(s, i, a), sch[1..]);
    }
  }

  lemma OneStepRight(right: int -> Prefix, s: State, i: nat, a: Answer)
    requires i < |s.calls| && RightCache(right, s.cache)
    ensures RightCache(right, Step(s, i, a).cache) <==> !Misleads(right, s.calls[i], a)
  {
    var c := s.calls[i];
    if Awaiting(c.pc) && a.Status? && a.code != 404 {
      assert Step(s, i, a).cache == s.cache[c.req.backend := c.pc.prefix];
    } else {
      assert Step(s, i, a).cache == s.cache;
    }
  }

  /** Exactly when a call for a user or extension path is told that the contract is not
      supported: both candidates answered its detection with 404, the right one too. */
  lemma UserPathToldIff(s: State, sch: Schedule, i: nat)
    requires Initial(s) && Fits(s, sch) && i < |s.calls|
    requires s.calls[i].req.notFound != Contract
    ensures var c := Run(s, sch).calls[i];
      c.pc == Done(Failed(RNotFound, NotSupported)) <==>
        && c.pc.Done? && c.sent == Probes(c.req.kind == Detect, 2)
        && |c.answers| == 2 && Is404(c.answers[0]) && Is404(c.answers[1])
  {
    RunKeepsInv(s, sch);
    assert Shape(Run(s, sch).calls[i]);
  }

  // ---------------------------------------------------------------- backends that keep to one prefix

  /** The wrong prefix answers 404 if at all, and the right one never answers the probe so. */
  predicate KeepsToPrefix(right: int -> Prefix, c: Call, a: Answer) {
    Awaiting(c.pc) && a.Status? ==>
      if c.pc.prefix != right(c.req.backend) then a.code == 404
      else (c.pc.Detecting? || c.req.kind == Detect) ==> a.code != 404
  }

  predicate KeepToPrefixes(right: int -> Prefix, s: State, sch: Schedule)
    requires Fits(s, sch)
    decreases |sch|
  {
    sch != [] ==>
      && KeepsToPrefix(right, s.calls[sch[0].0], sch[0].1)
      && KeepToPrefixes(right, Step(s, sch[0].0, sch[0].1), sch[1..])
  }

  ghost predicate Right(right: int -> Prefix, s: State) {
    && RightCache(right, s.cache)
    && (forall i | 0 <= i < |s.calls| :: RightCall(right, s.calls[i]))
  }

  /** Every request that a call other than the probe sends on its own behalf goes right. */
  ghost predicate OwnGoRight(right: int -> Prefix, c: Call) {
    c.req.kind != Detect ==> forall k | 0 <= k < |c.sent| && c.sent[k].own :: c.sent[k].prefix == right(c.req.backend)
  }

  /** Such a call only ever addresses the right prefix on its own behalf, does not go past
      it while detecting, and never reports a missing contract for a path whose 404 means
      something else. */
  ghost predicate RightCall(right: int -> Prefix, c: Call) {
    && OwnGoRight(right, c)
    && match c.pc
    case Sending(p) => p == right(c.req.backend)
    case Detecting(_, p) => p == V1 ==> right(c.req.backend) == V1
    case Done(o) => o == Failed(RNotFound, NotSupported) ==> c.req.kind != Detect && c.req.notFound == Contract
    case _ => true
  }

  lemma AdvanceKeepsOwnRight(right: int -> Prefix, cache: Cache, c: Call, a: Answer)
    requires OwnGoRight(right, c) && RightCache(right, cache)
    requires c.pc.Detecting? ==> c.pc.own == (c.req.kind == Detect)
    ensures OwnGoRight(right, Advance(cache, c, a).1)
  {
    var d := Advance(cache, c, a).1;
    if c.req.kind != Detect {
      forall k | 0 <= k < |d.sent| && d.sent[k].own ensures d.sent[k].prefix == right(c.req.backend) {
        if k < |c.sent| { assert d.sent[k] == c.sent[k]; }
      }
    }
  }

  lemma AdvanceKeepsRight(right: int -> Prefix, cache: Cache, c: Call, a: Answer)
    requires Shape(c) && (c.pc == Reread ==> c.req.backend in cache)
    requires RightCall(right, c) && RightCache(right, cache) && KeepsToPrefix(right, c, a)
    ensures RightCall(right, Advance(cache, c, a).1)
  {
    AdvanceKeepsOwnRight(right, cache, c, a);
  }

  lemma StepKeepsRight(right: int -> Prefix, s: State, i: nat, a: Answer)
    requires Inv(s) && Right(right, s) && i < |s.calls| && KeepsToPrefix(right, s.calls[i], a)
    ensures Right(right, Step(s, i, a))
  {
    var c := s.calls[i];
    assert RightCall(right, c) && Shape(c);
    AdvanceKeepsRight(right, s.cache, c, a);
    if !Misleads(right, c, a) { OneStepRight(right, s, i, a); }
    var calls := Step(s, i, a).calls;
    forall k | 0 <= k < |calls| ensures RightCall(right, calls[k]) {
      if k != i { assert calls[k] == s.calls[k]; }
    }
  }

  lemma {:induction false} RunKeepsRight(right: int -> Prefix, s: State, sch: Schedule)
    requires Inv(s) && Right(right, s) && Fits(s, sch) && KeepToPrefixes(right, s, sch)
    ensures Right(right, Run(s, sch))
    decreases |sch|
  {
    if sch != [] {
      StepKeepsInv(s, sch[0].0, sch[0].1);
      StepKeepsRight(right, s, sch[0].0, sch[0].1);
      RunKeepsRight(right, Step(s, sch[0].0, sch[0].1), sch[1..]);
    }
  }

  lemma InitialIsRight(right: int -> Prefix, s: State)
    requires Initial(s) && RightCache(right, s.cache)
    ensures Inv(s) && Right(right, s)
  {
  }

  /** In every run against backends that keep to one prefix the cache ends right, each call
      other than the probe sends its own request to the right prefix only, and no call for
      a user or extension path, cold or warm, is told that the contract is not supported. */
  lemma OnePrefixBackends(right: int -> Prefix, s: State, sch: Schedule, i: nat)
    requires Initial(s) && RightCache(right, s.cache) && Fits(s, sch) && KeepToPrefixes(right, s, sch)
    requires i < |s.calls|
    ensures RightCache(right, Run(s, sch).cache)
    ensures var c := Run(s, sch).calls[i];
      && (c.req.kind != Detect ==>
            forall k | 0 <= k < |c.sent| && c.sent[k].own :: c.sent[k].prefix == right(c.req.backend))
      && (c.req.notFound != Contract ==> c.pc != Done(Failed(RNotFound, NotSupported)))
  {
    InitialIsRight(right, s);
    RunKeepsRight(right, s, sch);
    assert RightCall(right, Run(s, sch).calls[i]);
  }

  /** The hypothesis is needed: one 401 from the wrong prefix is remembered, and a later
      call for an existing user is then told that there is no such user. */
  lemma WrongPrefixIsRemembered()
    ensures var req := Request(1, Get, User);
      var s := State(map[], [Call(req, Idle, [], []), Call(req, Idle, [], [])]);
      var end := Run(s, [(0, Timeout), (0, Status(401, Object)), (1, Timeout), (1, Status(404, Object))]);
      end.cache == map[1 := Billing] && end.calls[1].pc == Done(Failed(RNotFound, UserNotFound))
  {
    var req := Request(1, Get, User);
    var s0 := State(map[], [Call(req, Idle, [], []), Call(req, Idle, [], [])]);
    var s1 := Step(s0, 0, Timeout);
    var s2 := Step(s1, 0, Status(401, Object));
    var s3 := Step(s2, 1, Timeout);
    var s4 := Step(s3, 1, Status(404, Object));
    var sch := [(0, Timeout), (0, Status(401, Object)), (1, Timeout), (1, Status(404, Object))];
    assert Run(s0, sch) == Run(s1, sch[1..]) == Run(s2, sch[1..][1..]) == Run(s3, sch[1..][1..][1..])
        == Run(s4, sch[1..][1..][1..][1..]);
  }

  // ---------------------------------------------------------------- the code that runs one call

  /** The uninterrupted run of a call against a network that answers its exchanges in turn:
      the cache, the outcome and the number of exchanges so far. */
  ghost function Alone(cache: Cache, req: Request, pc: Pc, net: nat -> Answer, at: nat): (Cache, Outcome, nat)
    decreases Rank(pc)
  {
    if pc.Done? then (cache, pc.outcome, at)
    else
      var (cache', pc') := Move(cache, req, pc, net(at));
      Alone(cache', req, pc', net, if Awaiting(pc) then at + 1 else at)
  }

  /** The probe of a cold call, run as a call of its own, is the call's detection. */
  lemma ProbeIsDetection(cache: Cache, req: Request, net: nat -> Answer, at: nat)
    requires req.backend !in cache && req.kind != Detect
    ensures var (known, outcome, next) := Alone(cache, Probe(req.backend), Idle, net, at);
      && (outcome == Returned ==> req.backend in known)
      && Alone(cache, req, Idle, net, at)
         == if outcome == Returned then Alone(known, req, Reread, net, next) else (known, outcome, next)
  {
    DetectionFrom(cache, req, Billing, net, at);
  }

  lemma DetectionFrom(cache: Cache, req: Request, p: Prefix, net: nat -> Answer, at: nat)
    ensures var (known, outcome, next) := Alone(cache, Probe(req.backend), Detecting(true, p), net, at);
      && (outcome == Returned ==> req.backend in known)
      && Alone(cache, req, Detecting(false, p), net, at)
         == if outcome == Returned then Alone(known, req, Reread, net, next) else (known, outcome, next)
    decreases p == Billing
  {
    var a := net(at);
    if a.Status? && a.code == 404 && p == Billing { DetectionFrom(cache, req, V1, net, at + 1); }
  }

  function Probe(backend: int): Request { Request(backend, Detect, Contract) }

  const CANDIDATES: seq<Prefix> := [Billing, V1]

  class Client {
    var known: Cache      // the module-level prefix cache
    var exchanges: nat
    const net: nat -> Answer

    constructor (net: nat -> Answer)
      ensures known == map[] && exchanges == 0 && this.net == net
    {
      known, exchanges := map[], 0;
      this.net := net;
    }

    method Exchange() returns (a: Answer)
      modifies this`exchanges
      ensures a == net(old(exchanges)) && exchanges == old(exchanges) + 1
    {
      a := net(exchanges);
      exchanges := exchanges + 1;
    }

    method RememberPrefix(backend: int, p: Prefix)
      modifies this`known
      ensures known == old(known)[backend := p]
    {
      if backend !in known || known[backend] != p { known := known[backend := p]; }
    }

    /** The request with its nested detection does what the step-by-step call does when
        nothing interferes; the end of the candidate loop is never reached. */
    method Send(req: Request) returns (outcome: Outcome)
      modifies this
      ensures (known, outcome, exchanges) == Alone(old(known), req, Idle, net, old(exchanges))
      decreases req.kind != Detect, 1
    {
      ghost var goal := Alone(known, req, Idle, net, exchanges);
      var prefix := if req.backend in known then Some(known[req.backend]) else None;
      if prefix.None? && req.kind != Detect {
        var detected := DetectPrefix(req);
        if detected.Err? { return detected.error; }
        prefix := Some(detected.value);
      }
      var candidates := if prefix.None? then CANDIDATES else [prefix.value];
      var detecting := prefix.None?;
      outcome := Returned;
      var index := 0;
      while index < |candidates|
        invariant 0 <= index < |candidates|
        invariant var pc := if detecting then Detecting(true, candidates[index]) else Sending(candidates[index]);
                  goal == Alone(known, req, pc, net, exchanges)
      {
        var candidate := candidates[index];
        var a := Exchange();
        if !a.Status? { return NoAnswer(a); }
        if a.code == 404 {
          if detecting && index < |candidates| - 1 {
            index := index + 1;
            continue;
          }
          return NotFoundError(req.notFound, detecting);
        }
        RememberPrefix(req.backend, candidate);
        return Parse(a.code, a.body);
      }
      assert false;
    }

    /** A probe, and then the prefix it left in the cache. */
    method DetectPrefix(req: Request) returns (r: Result<Prefix, Outcome>)
      requires req.backend !in known && req.kind != Detect
      modifies this
      ensures r.Ok? ==>
        Alone(old(known), req, Idle, net, old(exchanges)) == Alone(known, req, Sending(r.value), net, exchanges)
      ensures r.Err? ==> Alone(old(known), req, Idle, net, old(exchanges)) == (known, r.error, exchanges)
      decreases req.kind != Detect, 0
    {
      ProbeIsDetection(known, req, net, exchanges);
      var outcome := Send(Probe(req.backend));
      if outcome != Returned { return Err(outcome); }
      if req.backend in known { return Ok(known[req.backend]); }
      return Err(Failed(RNotFound, NotSupported));
    }
  }
}

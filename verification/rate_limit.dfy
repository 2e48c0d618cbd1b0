/** The sliding-window limiter of login attempts. Calls are taken in the order in which
    they hold the lock; the clock is read before that, so along this order the readings may
    go back. */
module RateLimit {

  datatype Event = Event(key: string, at: real, admitted: bool)

  /** The calls so far, latest outermost. */
  datatype History = Start | Then(before: History, e: Event)

  // ---------------------------------------------------------------- full-history specification

  predicate Admits(e: Event, key: string) { e.admitted && e.key == key }

  /** How many admissions of a key lie in a closed interval. */
  function Count(h: History, key: string, from: real, to: real): nat {
    match h
    case Start => 0
    case Then(b, e) => Count(b, key, from, to) + (if Admits(e, key) && from <= e.at <= to then 1 else 0)
  }

  /** The clock does not go back and has not passed `now`. */
  predicate Clocked(h: History, now: real) {
    match h
    case Start => true
    case Then(b, e) => e.at <= now && Clocked(b, e.at)
  }

  /** Every verdict is the specified one: admitted exactly if fewer than `limit` earlier
      admissions of that key lie in the closed window that ends at the call. */
  predicate Correct(h: History, limit: int, window: real) {
    match h
    case Start => true
    case Then(b, e) =>
      && Correct(b, limit, window)
      && (e.admitted <==> Count(b, e.key, e.at - window, e.at) < limit)
  }

  // ---------------------------------------------------------------- the limiter

  /** All admissions of the key lie before the horizon. */
  predicate Expired(h: History, key: string, horizon: real) {
    match h
    case Start => true
    case Then(b, e) => Expired(b, key, horizon) && (Admits(e, key) ==> e.at < horizon)
  }

  /** The deque holds the latest admissions of the key, and what it lacks is expired. */
  predicate Kept(h: History, key: string, queue: seq<real>, horizon: real) {
    match h
    case Start => queue == []
    case Then(b, e) =>
      if !Admits(e, key) then Kept(b, key, queue, horizon)
      else if queue == [] then Expired(h, key, horizon)
      else queue[|queue| - 1] == e.at && Kept(b, key, queue[..|queue| - 1], horizon)
  }

  lemma {:induction false} KeptLonger(h: History, key: string, queue: seq<real>, horizon: real, later: real)
    requires Kept(h, key, queue, horizon) && horizon <= later
    ensures Kept(h, key, queue, later)
  {
    if h.Then? {
      if !Admits(h.e, key) { KeptLonger(h.before, key, queue, horizon, later); }
      else if queue == [] { ExpiredLonger(h, key, horizon, later); }
      else { KeptLonger(h.before, key, queue[..|queue| - 1], horizon, later); }
    }
  }

  lemma {:induction false} ExpiredLonger(h: History, key: string, horizon: real, later: real)
    requires Expired(h, key, horizon) && horizon <= later
    ensures Expired(h, key, later)
  {
    if h.Then? { ExpiredLonger(h.before, key, horizon, later); }
  }

  lemma {:induction false} EmptyIsExpired(h: History, key: string, horizon: real)
    requires Kept(h, key, [], horizon)
    ensures Expired(h, key, horizon)
  {
    if h.Then? && !Admits(h.e, key) { EmptyIsExpired(h.before, key, horizon); }
  }

  lemma {:induction false} PopLeft(h: History, key: string, queue: seq<real>, cutoff: real)
    requires Kept(h, key, queue, cutoff) && queue != [] && queue[0] < cutoff
    ensures Kept(h, key, queue[1..], cutoff)
  {
    if h.Then? {
      if !Admits(h.e, key) {
        PopLeft(h.before, key, queue, cutoff);
      } else if |queue| == 1 {
        EmptyIsExpired(h.before, key, cutoff);
      } else {
        var init := queue[..|queue| - 1];
        PopLeft(h.before, key, init, cutoff);
        assert queue[1..][..|queue| - 2] == init[1..];
      }
    }
  }

  lemma {:induction false} ExpiredCount(h: History, key: string, cutoff: real, to: real)
    requires Expired(h, key, cutoff)
    ensures Count(h, key, cutoff, to) == 0
  {
    if h.Then? { ExpiredCount(h.before, key, cutoff, to); }
  }

  /** What a pruned deque holds is what the window contains. */
  lemma {:induction false} QueueIsWindow(h: History, key: string, queue: seq<real>, cutoff: real, now: real)
    requires Kept(h, key, queue, cutoff) && Clocked(h, now) && (queue == [] || cutoff <= queue[0])
    ensures Count(h, key, cutoff, now) == |queue|
    ensures queue != [] ==> cutoff <= queue[|queue| - 1]
  {
    if h.Then? {
      if queue == [] {
        EmptyIsExpired(h, key, cutoff);
        ExpiredCount(h, key, cutoff, now);
      } else {
        ClockedLonger(h.before, h.e.at, now);
        if Admits(h.e, key) {
          var init := queue[..|queue| - 1];
          QueueIsWindow(h.before, key, init, cutoff, now);
          if init != [] { LastIsLatest(h.before, key, init, cutoff, h.e.at); }
        } else {
          QueueIsWindow(h.before, key, queue, cutoff, now);
        }
      }
    }
  }

  lemma {:induction false} LastIsLatest(h: History, key: string, queue: seq<real>, horizon: real, now: real)
    requires Kept(h, key, queue, horizon) && Clocked(h, now) && queue != []
    ensures queue[|queue| - 1] <= now
  {
    if h.Then? && !Admits(h.e, key) { LastIsLatest(h.before, key, queue, horizon, h.e.at); }
  }

  lemma ClockedLonger(h: History, now: real, later: real)
    requires Clocked(h, now) && now <= later
    ensures Clocked(h, later)
  {
  }

  // ---------------------------------------------------------------- what the deques do

  function Popped(queue: seq<real>, cutoff: real): seq<real> {
    if queue != [] && queue[0] < cutoff then Popped(queue[1..], cutoff) else queue
  }

  /** What one call does to the deque of its key, whatever the clock reads. */
  function DequeStep(queue: seq<real>, limit: int, window: real, now: real): (bool, seq<real>) {
    var q := Popped(queue, now - window);
    if |q| < limit then (true, q + [now]) else (false, q)
  }

  /** The deque that the calls so far leave to a key. */
  function DequeAfter(h: History, limit: int, window: real, key: string): seq<real> {
    match h
    case Start => []
    case Then(b, e) =>
      var q := DequeAfter(b, limit, window, key);
      if e.key == key then DequeStep(q, limit, window, e.at).1 else q
  }

  /** Every verdict is the one that the deque gave. */
  predicate Replayed(h: History, limit: int, window: real) {
    match h
    case Start => true
    case Then(b, e) =>
      && Replayed(b, limit, window)
      && e.admitted == DequeStep(DequeAfter(b, limit, window, e.key), limit, window, e.at).0
  }

  lemma {:induction false} PoppedIsKept(h: History, key: string, queue: seq<real>, cutoff: real)
    requires Kept(h, key, queue, cutoff)
    ensures var q := Popped(queue, cutoff); Kept(h, key, q, cutoff) && (q == [] || cutoff <= q[0])
    decreases |queue|
  {
    if queue != [] && queue[0] < cutoff {
      PopLeft(h, key, queue, cutoff);
      PoppedIsKept(h, key, queue[1..], cutoff);
    }
  }

  lemma {:induction false} DequeIsKept(h: History, limit: int, window: real, key: string, now: real)
    requires Replayed(h, limit, window) && Clocked(h, now)
    ensures Kept(h, key, DequeAfter(h, limit, window, key), now - window)
  {
    if h.Then? {
      var e := h.e;
      var q := DequeAfter(h.before, limit, window, key);
      DequeIsKept(h.before, limit, window, key, e.at);
      if e.key == key {
        PoppedIsKept(h.before, key, q, e.at - window);
        var p := Popped(q, e.at - window);
        assert (p + [e.at])[..|p|] == p;
      }
      KeptLonger(h, key, DequeAfter(h, limit, window, key), e.at - window, now - window);
    }
  }

  /** On readings in clock order the deque gives the specified verdict. */
  lemma VerdictIsSpecified(h: History, limit: int, window: real, key: string, now: real)
    requires Replayed(h, limit, window) && Clocked(h, now)
    ensures DequeStep(DequeAfter(h, limit, window, key), limit, window, now).0
       <==> Count(h, key, now - window, now) < limit
  {
    var q := DequeAfter(h, limit, window, key);
    DequeIsKept(h, limit, window, key, now);
    PoppedIsKept(h, key, q, now - window);
    QueueIsWindow(h, key, Popped(q, now - window), now - window, now);
  }

  /** So a whole history in clock order meets the full-history specification. */
  lemma {:induction false} ClockedIsCorrect(h: History, limit: int, window: real, now: real)
    requires Replayed(h, limit, window) && Clocked(h, now)
    ensures Correct(h, limit, window)
  {
    if h.Then? {
      ClockedIsCorrect(h.before, limit, window, h.e.at);
      VerdictIsSpecified(h.before, limit, window, h.e.key, h.e.at);
    }
  }

  // ---------------------------------------------------------------- the object

  class Limiter {
    const limit: int
    const window: real
    var hits: map<string, seq<real>>
    ghost var history: History

    ghost predicate Valid() reads this {
      && Replayed(history, limit, window)
      && forall key :: QueueOf(hits, key) == DequeAfter(history, limit, window, key)
    }

    constructor (limit: int, window: real)
      ensures Valid() && this.limit == limit && this.window == window && history == Start
    {
      this.limit, this.window := limit, window;
      hits, history := map[], Start;
    }

    method IsAllowed(key: string, now: real) returns (allowed: bool)
      requires Valid()
      modifies this
      ensures Valid() && history == Then(old(history), Event(key, now, allowed))
      ensures Clocked(old(history), now) ==> (allowed <==> Count(old(history), key, now - window, now) < limit)
    {
      var queue := Prune(QueueOf(hits, key), now - window);
      allowed := |queue| < limit;
      if allowed { queue := queue + [now]; }
      if Clocked(history, now) { VerdictIsSpecified(history, limit, window, key, now); }
      ghost var before := hits;
      hits := hits[key := queue];
      assert forall k | k != key :: QueueOf(hits, k) == QueueOf(before, k);
      history := Then(history, Event(key, now, allowed));
    }
  }

  function QueueOf(hits: map<string, seq<real>>, key: string): seq<real> { if key in hits then hits[key] else [] }

  /** `while hits and hits[0] < cutoff: hits.popleft()` */
  method Prune(hits: seq<real>, cutoff: real) returns (queue: seq<real>)
    ensures queue == Popped(hits, cutoff)
    ensures |queue| <= |hits| && hits[|hits| - |queue|..] == queue && (queue == [] || cutoff <= queue[0])
    ensures forall k | 0 <= k < |hits| - |queue| :: hits[k] < cutoff
  {
    queue := hits;
    while queue != [] && queue[0] < cutoff
      invariant Popped(queue, cutoff) == Popped(hits, cutoff)
      invariant |queue| <= |hits| && hits[|hits| - |queue|..] == queue
      invariant forall k | 0 <= k < |hits| - |queue| :: hits[k] < cutoff
      decreases |queue|
    {
      queue := queue[1..];
    }
  }

  // ---------------------------------------------------------------- what the verdicts guarantee

  lemma {:induction false} WiderWindow(h: History, key: string, from: real, to: real, from': real, to': real)
    requires from' <= from && Clocked(h, to')
    ensures Count(h, key, from, to) <= Count(h, key, from', to')
  {
    if h.Then? {
      ClockedLonger(h.before, h.e.at, to');
      WiderWindow(h.before, key, from, to, from', to');
    }
  }

  /** In a history with correct verdicts no closed interval as long as the window ever
      holds more than `limit` admissions of one key. */
  lemma {:induction false} SpecificationBounds(h: History, limit: int, window: real, key: string,
                                               start: real, now: real)
    requires Clocked(h, now) && Correct(h, limit, window)
    ensures Count(h, key, start, start + window) <= if limit < 0 then 0 else limit
  {
    if h.Then? {
      SpecificationBounds(h.before, limit, window, key, start, h.e.at);
      if Admits(h.e, key) && start <= h.e.at <= start + window {
        WiderWindow(h.before, key, start, start + window, h.e.at - window, h.e.at);
      }
    }
  }

  /** No reading so far is later than `bound`. */
  predicate NoneAfter(h: History, bound: real) {
    match h
    case Start => true
    case Then(b, e) => e.at <= bound && NoneAfter(b, bound)
  }

  /** Along the lock order no reading falls more than `drift` behind an earlier one. */
  predicate DriftsBy(h: History, drift: real) {
    match h
    case Start => true
    case Then(b, e) => DriftsBy(b, drift) && NoneAfter(b, e.at + drift)
  }

  /** How many elements of a deque are not before `from`. */
  function Recent(queue: seq<real>, from: real): nat {
    if queue == [] then 0
    else Recent(queue[..|queue| - 1], from) + if from <= queue[|queue| - 1] then 1 else 0
  }

  lemma {:induction false} RecentTail(queue: seq<real>, from: real)
    requires queue != [] && queue[0] < from
    ensures Recent(queue[1..], from) == Recent(queue, from)
  {
    if |queue| > 1 {
      var init := queue[..|queue| - 1];
      RecentTail(init, from);
      assert queue[1..][..|queue| - 2] == init[1..];
    }
  }

  lemma {:induction false} PoppedKeepsRecent(queue: seq<real>, cutoff: real, from: real)
    requires cutoff <= from
    ensures Recent(Popped(queue, cutoff), from) == Recent(queue, from)
    decreases |queue|
  {
    if queue != [] && queue[0] < cutoff {
      RecentTail(queue, from);
      PoppedKeepsRecent(queue[1..], cutoff, from);
    }
  }

  lemma {:induction false} RecentAtMostAll(queue: seq<real>, from: real)
    ensures Recent(queue, from) <= |queue|
  {
    if queue != [] { RecentAtMostAll(queue[..|queue| - 1], from); }
  }

  lemma RecentSnoc(queue: seq<real>, x: real, from: real)
    ensures Recent(queue + [x], from) == Recent(queue, from) + if from <= x then 1 else 0
  {
    assert (queue + [x])[..|queue|] == queue;
  }

  /** What lies within a window of the latest reading has not been popped, in whatever
      order the readings came. */
  lemma {:induction false} DequeHoldsRecent(h: History, limit: int, window: real, key: string,
                                            from: real, to: real, bound: real)
    requires Replayed(h, limit, window) && NoneAfter(h, bound) && bound - window <= from
    ensures Count(h, key, from, to) <= Recent(DequeAfter(h, limit, window, key), from)
  {
    if h.Then? {
      DequeHoldsRecent(h.before, limit, window, key, from, to, bound);
      if h.e.key == key {
        var q := DequeAfter(h.before, limit, window, key);
        PoppedKeepsRecent(q, h.e.at - window, from);
        RecentSnoc(Popped(q, h.e.at - window), h.e.at, from);
      }
    }
  }

  lemma AdmittedHasRoom(h: History, limit: int, window: real, e: Event, drift: real, start: real, to: real)
    requires Replayed(Then(h, e), limit, window) && NoneAfter(h, e.at + drift) && e.admitted
    requires drift >= 0.0 && e.at <= start + window - drift
    ensures Count(h, e.key, start, to) < limit
  {
    var q := DequeAfter(h, limit, window, e.key);
    DequeHoldsRecent(h, limit, window, e.key, start, to, e.at + drift);
    PoppedKeepsRecent(q, e.at - window, start);
    RecentAtMostAll(Popped(q, e.at - window), start);
  }

  /** If no reading falls more than `drift` behind an earlier one, no closed interval of
      length `window - drift` ever holds more than `limit` admissions of one key; without
      drift this is the whole window. */
  lemma {:induction false} NeverMoreThanLimit(h: History, limit: int, window: real, drift: real, key: string,
                                              start: real)
    requires Replayed(h, limit, window) && DriftsBy(h, drift) && drift >= 0.0
    ensures Count(h, key, start, start + window - drift) <= if limit < 0 then 0 else limit
  {
    if h.Then? {
      NeverMoreThanLimit(h.before, limit, window, drift, key, start);
      if Admits(h.e, key) && start <= h.e.at <= start + window - drift {
        AdmittedHasRoom(h.before, limit, window, h.e, drift, start, start + window - drift);
      }
    }
  }

  /** To be in clock order is to drift by nothing. */
  lemma {:induction false} ClockedIffNoDrift(h: History, now: real)
    ensures Clocked(h, now) <==> DriftsBy(h, 0.0) && NoneAfter(h, now)
  {
    if h.Then? {
      ClockedIffNoDrift(h.before, h.e.at);
      if h.e.at <= now && NoneAfter(h.before, h.e.at) { NoneLater(h.before, h.e.at, now); }
    }
  }

  lemma {:induction false} NoneLater(h: History, bound: real, later: real)
    requires NoneAfter(h, bound) && bound <= later
    ensures NoneAfter(h, later)
  {
    if h.Then? { NoneLater(h.before, bound, later); }
  }

  /** The drift has to be taken off: with a limit of 2 in 10 seconds and readings 0, 1, 12
      and 10 in lock order, three calls are admitted between 0 and 10. */
  lemma ClockOrderIsNeeded()
    ensures var k := "k";
      var h := Then(Then(Start, Event(k, 0.0, true)), Event(k, 1.0, true));
      var late := Then(Then(h, Event(k, 12.0, true)), Event(k, 10.0, true));
      Replayed(late, 2, 10.0) && DriftsBy(late, 2.0) && Count(late, k, 0.0, 10.0) == 3
  {
    var k := "k";
    var h1 := Then(Start, Event(k, 0.0, true));
    var h2 := Then(h1, Event(k, 1.0, true));
    var h3 := Then(h2, Event(k, 12.0, true));
    assert [] + [0.0] == [0.0] && [0.0] + [1.0] == [0.0, 1.0] && [] + [12.0] == [12.0];
    assert [0.0, 1.0][1..] == [1.0] && [1.0][1..] == [];
    assert Popped([0.0, 1.0], 2.0) == Popped([1.0], 2.0) == Popped([], 2.0) == [];
    assert DequeAfter(h1, 2, 10.0, k) == [0.0] && Replayed(h1, 2, 10.0);
    assert DequeAfter(h2, 2, 10.0, k) == [0.0, 1.0] && Replayed(h2, 2, 10.0);
    assert DequeAfter(h3, 2, 10.0, k) == [12.0] && Replayed(h3, 2, 10.0);
    assert Count(h2, k, 0.0, 10.0) == 2 && Count(h3, k, 0.0, 10.0) == 2;
    assert NoneAfter(h1, 3.0) && NoneAfter(h2, 14.0) && NoneAfter(h3, 12.0);
    assert DriftsBy(h1, 2.0) && DriftsBy(h2, 2.0) && DriftsBy(h3, 2.0);
  }

  /** The calls of one key. */
  function Only(h: History, key: string): History {
    match h
    case Start => Start
    case Then(b, e) => if e.key == key then Then(Only(b, key), e) else Only(b, key)
  }

  /** Keys do not affect each other: a key gets the verdicts it would get alone, and what
      it may be told does not depend on the other keys. */
  lemma {:induction false} KeysAreIndependent(h: History, limit: int, window: real, key: string)
    ensures DequeAfter(Only(h, key), limit, window, key) == DequeAfter(h, limit, window, key)
    ensures Replayed(h, limit, window) ==> Replayed(Only(h, key), limit, window)
    ensures Correct(h, limit, window) ==> Correct(Only(h, key), limit, window)
  {
    if h.Then? {
      KeysAreIndependent(h.before, limit, window, key);
      if h.e.key == key { CountOnly(h.before, key, h.e.at - window, h.e.at); }
    }
  }

  lemma {:induction false} CountOnly(h: History, key: string, from: real, to: real)
    ensures Count(Only(h, key), key, from, to) == Count(h, key, from, to)
  {
    if h.Then? { CountOnly(h.before, key, from, to); }
  }
}

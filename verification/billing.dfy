/** What an AI key has spent since its anchor, read from the paged cost reports of its
    provider. */
module Billing {
  import opened Prelude

  // ---------------------------------------------------------------- spans of at most 31 days

  /** Instants are microseconds of UTC. */
  const SECOND := 1_000_000
  const MAX_SPAN := 31 * 86_400 * SECOND

  datatype Span = Span(start: int, end: int) {
    predicate Holds(t: int) { start <= t < end }
  }

  /** The spans follow one another from `start` to `end`; each is as long as it may be, except
      that the last one stops at `end`. */
  ghost predicate Tiles(spans: seq<Span>, start: int, end: int) {
    && (spans == [] <==> end <= start)
    && (spans != [] ==> spans[0].start == start && spans[|spans| - 1].end == end)
    && (forall i | 0 <= i < |spans| :: 0 < spans[i].end - spans[i].start <= MAX_SPAN)
    && (forall i, j | 0 <= i < |spans| && 0 <= j < |spans| && j == i + 1 ::
          spans[j].start == spans[i].end == spans[i].start + MAX_SPAN)
  }

  method ChunkUtcDays(start: int, end: int) returns (chunks: seq<Span>)
    ensures Tiles(chunks, start, end)
  {
    chunks := [];
    var cursor := start;
    while cursor < end
      invariant start < end ==> cursor <= end
      invariant end <= start ==> cursor == start
      invariant Tiles(chunks, start, cursor)
      invariant chunks != [] && cursor < end ==> chunks[|chunks| - 1].end == chunks[|chunks| - 1].start + MAX_SPAN
      decreases end - cursor
    {
      var chunkEnd := if cursor + MAX_SPAN < end then cursor + MAX_SPAN else end;
      chunks := chunks + [Span(cursor, chunkEnd)];
      cursor := chunkEnd;
    }
  }

  lemma {:induction false} SpansAreOrdered(spans: seq<Span>, start: int, end: int, i: nat, j: nat)
    requires Tiles(spans, start, end) && i <= j < |spans|
    ensures if i < j then spans[i].end <= spans[j].start else spans[i].start < spans[j].end
    ensures spans[i].start <= spans[j].start && spans[i].end <= spans[j].end
    decreases j - i
  {
    if i < j { SpansAreOrdered(spans, start, end, i, j - 1); }
  }

  lemma {:induction false} SomeSpanHolds(spans: seq<Span>, start: int, end: int, t: int, n: nat)
    requires Tiles(spans, start, end) && 0 < n <= |spans| && start <= t < spans[n - 1].end
    ensures exists i | 0 <= i < n :: spans[i].Holds(t)
  {
    if t < spans[n - 1].start { SomeSpanHolds(spans, start, end, t, n - 1); } else { assert spans[n - 1].Holds(t); }
  }

  /** The spans are a partition: an instant of the interval lies in exactly one of them, any
      other instant in none. */
  lemma TilesPartition(spans: seq<Span>, start: int, end: int, t: int)
    requires Tiles(spans, start, end)
    ensures (exists i | 0 <= i < |spans| :: spans[i].Holds(t)) <==> start <= t < end
    ensures forall i, j | 0 <= i < j < |spans| :: !(spans[i].Holds(t) && spans[j].Holds(t))
  {
    forall i, j | 0 <= i < j < |spans| ensures spans[i].end <= spans[j].start {
      SpansAreOrdered(spans, start, end, i, j);
    }
    forall i | 0 <= i < |spans| ensures start <= spans[i].start < spans[i].end <= end {
      SpansAreOrdered(spans, start, end, 0, i);
      SpansAreOrdered(spans, start, end, i, |spans| - 1);
    }
    if start <= t < end { SomeSpanHolds(spans, start, end, t, |spans|); }
  }

  // ---------------------------------------------------------------- answers of the provider

  /** A JSON value in the place of an amount. */
  datatype Amount = Null | Number(value: real) | Text(read: Option<real>) | Nested(inner: Amount) | Unreadable

  function ParseAmount(a: Amount): Option<real> {
    match a
    case Number(v) => Some(v)
    case Text(read) => read
    case Nested(inner) => ParseAmount(inner)
    case _ => None
  }

  datatype Item = NotRow | Row(key: Option<string>, amount: Amount)
  datatype Bucket = NoResults | Results(items: seq<Item>)
  datatype Page = Page(buckets: Option<seq<Bucket>>, hasMore: bool, nextPage: Option<string>)
  datatype Body = NotJson | NotObject | Object(page: Page)
  datatype Attempt = Broken | Answer(status: int, body: Body)

  /** `Raised` is an exception, the others are error results. */
  datatype Failure = Raised | AdminInvalid | AdminForbidden | KeyNotFound | ProviderError

  function MapAdminAuthError(status: int): Option<Failure> {
    if status == 401 then Some(AdminInvalid)
    else if status == 403 then Some(AdminForbidden)
    else if status >= 400 then Some(ProviderError)
    else None
  }

  function Verdict(a: Attempt): Result<Page, Failure> {
    match a
    case Broken => Err(Raised)
    case Answer(status, body) =>
      match MapAdminAuthError(status)
      case Some(e) => Err(e)
      case None =>
        if status != 200 then Err(ProviderError)
        else match body
          case NotJson => Err(Raised)
          case NotObject => Err(ProviderError)
          case Object(page) => Ok(page)
  }

  /** An answer is used only if it is a 200 with an object; otherwise the reason tells the
      rejected administrator key from the forbidden one and both from the rest. */
  lemma FailureSaysWhy(a: Attempt)
    ensures forall page :: Verdict(a) == Ok(page) <==> a == Answer(200, Object(page))
    ensures Verdict(a) == Err(AdminInvalid) <==> a.Answer? && a.status == 401
    ensures Verdict(a) == Err(AdminForbidden) <==> a.Answer? && a.status == 403
    ensures Verdict(a) == Err(Raised) <==> a.Broken? || (a.status == 200 && a.body == NotJson)
    ensures Verdict(a) != Err(KeyNotFound)
  {
  }

  function NextToken(p: Page): Option<string> {
    if p.hasMore && p.nextPage.Some? && p.nextPage.value != "" then p.nextPage else None
  }

  // ---------------------------------------------------------------- adding up rows

  function Share(key: string, item: Item): real {
    if item.Row? && (item.key.None? || item.key.value == key) then ParseAmount(item.amount).GetOr(0.0) else 0.0
  }

  /** The sum of every readable amount whose key id is absent or is `key`. */
  function SumItems(key: string, items: seq<Item>): real {
    if items == [] then 0.0 else SumItems(key, items[..|items| - 1]) + Share(key, items[|items| - 1])
  }

  lemma SumItemsSnoc(key: string, items: seq<Item>, item: Item)
    ensures SumItems(key, items + [item]) == SumItems(key, items) + Share(key, item)
  {
    assert (items + [item])[..|items|] == items;
  }

  function ItemsOf(b: Bucket): seq<Item> { if b.Results? then b.items else [] }

  function BucketItems(buckets: seq<Bucket>): seq<Item> {
    if buckets == [] then [] else BucketItems(buckets[..|buckets| - 1]) + ItemsOf(buckets[|buckets| - 1])
  }

  function PageItems(p: Page): seq<Item> { BucketItems(p.buckets.GetOr([])) }

  method AddResults(key: string, results: seq<Item>, total: real, ghost earlier: seq<Item>) returns (sum: real)
    requires total == SumItems(key, earlier)
    ensures sum == SumItems(key, earlier + results)
  {
    sum := total;
    assert earlier + results[..0] == earlier;
    for j := 0 to |results|
      invariant sum == SumItems(key, earlier + results[..j])
    {
      SumItemsSnoc(key, earlier + results[..j], results[j]);
      assert earlier + results[..j] + [results[j]] == earlier + results[..j + 1];
      if results[j].Row? && (results[j].key.None? || results[j].key.value == key) {
        var amount := ParseAmount(results[j].amount);
        if amount.Some? { sum := sum + amount.value; }
      }
    }
    assert results[..|results|] == results;
  }

  method AddPage(key: string, page: Page, total: real, ghost earlier: seq<Item>) returns (sum: real)
    requires total == SumItems(key, earlier)
    ensures sum == SumItems(key, earlier + PageItems(page))
  {
    sum := total;
    assert earlier + [] == earlier;
    if page.buckets.Some? {
      var buckets := page.buckets.value;
      for i := 0 to |buckets|
        invariant sum == SumItems(key, earlier + BucketItems(buckets[..i]))
      {
        ghost var before := earlier + BucketItems(buckets[..i]);
        BucketItemsNext(buckets, i, earlier, before);
        if buckets[i].Results? {
          sum := AddResults(key, buckets[i].items, sum, before);
        }
      }
      assert buckets[..|buckets|] == buckets;
    }
  }

  lemma BucketItemsNext(buckets: seq<Bucket>, i: nat, earlier: seq<Item>, before: seq<Item>)
    requires i < |buckets| && before == earlier + BucketItems(buckets[..i])
    ensures earlier + BucketItems(buckets[..i + 1]) == if buckets[i].Results? then before + buckets[i].items else before
  {
    assert buckets[..i + 1][..i] == buckets[..i];
    assert before + [] == before;
  }

  // ---------------------------------------------------------------- what is added up

  /** An amount is a number, a text that reads as one, or an object that holds an amount. */
  lemma AmountIs(v: real, read: Option<real>, inner: Amount)
    ensures ParseAmount(Number(v)) == Some(v)
    ensures ParseAmount(Text(read)) == read
    ensures ParseAmount(Nested(inner)) == ParseAmount(inner)
    ensures ParseAmount(Null) == ParseAmount(Unreadable) == None
  {
  }

  /** One row more: its amount counts if the row names the key or none. */
  lemma RowCounts(key: string, items: seq<Item>, other: string, a: Amount, v: real)
    ensures SumItems(key, []) == 0.0
    ensures SumItems(key, items + [NotRow]) == SumItems(key, items)
    ensures ParseAmount(a) == None ==> SumItems(key, items + [Row(None, a)]) == SumItems(key, items)
    ensures ParseAmount(a) == Some(v) ==> SumItems(key, items + [Row(None, a)]) == SumItems(key, items) + v
    ensures ParseAmount(a) == Some(v) ==> SumItems(key, items + [Row(Some(key), a)]) == SumItems(key, items) + v
    ensures other != key ==> SumItems(key, items + [Row(Some(other), a)]) == SumItems(key, items)
  {
    SumItemsSnoc(key, items, NotRow);
    SumItemsSnoc(key, items, Row(None, a));
    SumItemsSnoc(key, items, Row(Some(key), a));
    SumItemsSnoc(key, items, Row(Some(other), a));
  }

  /** The rows of a page are those of its buckets, one bucket after the other. */
  lemma PageRowsAre(buckets: seq<Bucket>, items: seq<Item>, more: bool, next: Option<string>)
    ensures PageItems(Page(None, more, next)) == PageItems(Page(Some([]), more, next)) == []
    ensures PageItems(Page(Some(buckets + [Results(items)]), more, next))
         == PageItems(Page(Some(buckets), more, next)) + items
    ensures PageItems(Page(Some(buckets + [NoResults]), more, next)) == PageItems(Page(Some(buckets), more, next))
  {
    assert (buckets + [Results(items)])[..|buckets|] == buckets;
    assert (buckets + [NoResults])[..|buckets|] == buckets;
    assert BucketItems(buckets) + [] == BucketItems(buckets);
  }

  /** Another page follows only if there is more and its token is a text that is not empty. */
  lemma TokenIs(p: Page)
    ensures forall t :: NextToken(p) == Some(t) <==> p.hasMore && p.nextPage == Some(t) && t != ""
  {
  }

  // ---------------------------------------------------------------- requests and retries

  /** What a cost request asks for: the costs of a whole organisation, grouped by key, or
      a report on one key over a span, which is sent in whole seconds. */
  datatype Query = CostsSince(second: int) | Report(startSecond: int, endSecond: int, keyId: string)

  /** The empty token stands for a request without `page`. */
  datatype Request = Request(query: Query, token: string)

  /** The answers the network has ready, one for each attempt; when they are used up, every
      further attempt fails. */
  function Nth(script: seq<Attempt>, k: nat): Attempt { if k < |script| then script[k] else Broken }

  class Wire {
    const script: seq<Attempt>
    var asked: seq<Request>

    constructor (script: seq<Attempt>)
      ensures this.script == script && asked == []
    {
      this.script, asked := script, [];
    }

    method Send(r: Request) returns (a: Attempt)
      modifies this
      ensures asked == old(asked) + [r] && a == Nth(script, |old(asked)|)
    {
      a := Nth(script, |asked|);
      asked := asked + [r];
    }
  }

  const MAX_ATTEMPTS := 3

  predicate Retried(a: Attempt) { a.Broken? || 500 <= a.status < 600 }

  /** The attempts from `from` to `to` are one request: it ends with the first attempt that
      is not retried, or with the third. */
  ghost predicate Settles(script: seq<Attempt>, from: nat, to: nat) {
    && from < to <= from + MAX_ATTEMPTS
    && (forall k | from <= k < to - 1 :: Retried(Nth(script, k)))
    && (Retried(Nth(script, to - 1)) ==> to == from + MAX_ATTEMPTS)
  }

  ghost predicate Sent(asked: seq<Request>, from: nat, to: nat, r: Request) {
    to <= |asked| && forall k | from <= k < to :: asked[k] == r
  }

  /** At most three attempts, all but the last of them lost or answered by a server error,
      and the last one too only if it is the third. */
  lemma SettlesIff(script: seq<Attempt>, from: nat, to: nat)
    ensures Settles(script, from, to) <==>
      && (to == from + 1 || to == from + 2 || to == from + 3)
      && (forall k | from <= k < to - 1 :: Nth(script, k).Broken? || 500 <= Nth(script, k).status <= 599)
      && (var last := Nth(script, to - 1);
          to == from + 3 || (last.Answer? && !(500 <= last.status <= 599)))
  {
  }

  method RequestWithRetries(w: Wire, r: Request) returns (a: Attempt)
    modifies w
    ensures old(w.asked) <= w.asked
    ensures Settles(w.script, |old(w.asked)|, |w.asked|) && Sent(w.asked, |old(w.asked)|, |w.asked|, r)
    ensures a == Nth(w.script, |w.asked| - 1)
  {
    var attempt := 0;
    while attempt < MAX_ATTEMPTS
      invariant 0 <= attempt < MAX_ATTEMPTS
      invariant old(w.asked) <= w.asked && |w.asked| == |old(w.asked)| + attempt
      invariant Sent(w.asked, |old(w.asked)|, |w.asked|, r)
      invariant forall k | |old(w.asked)| <= k < |w.asked| :: Retried(Nth(w.script, k))
    {
      a := w.Send(r);
      if a.Broken? {
        if attempt < MAX_ATTEMPTS - 1 {
          attempt := attempt + 1;
          continue;
        }
        return;
      }
      if 500 <= a.status < 600 && attempt < MAX_ATTEMPTS - 1 {
        attempt := attempt + 1;
        continue;
      }
      return;
    }
    assert false;
  }

  // ---------------------------------------------------------------- walking the pages

  /** One page that was read: which query and token asked for it, and the attempts spent. */
  datatype Served = Served(slot: nat, token: string, from: nat, to: nat, page: Page)

  /** Where the walk stands: query, token and number of attempts made. */
  datatype Place = Place(slot: nat, token: string, at: nat)

  /** After a page comes the page it names, or else the first page of the next query. */
  function After(s: Served): Place {
    match NextToken(s.page)
    case Some(token) => Place(s.slot, token, s.to)
    case None => Place(s.slot + 1, "", s.to)
  }

  /** The pages read so far, latest outermost. */
  datatype Trace = Start | Then(before: Trace, s: Served)

  function End(trace: Trace): Place {
    match trace
    case Start => Place(0, "", 0)
    case Then(_, s) => After(s)
  }

  ghost predicate Serves(script: seq<Attempt>, asked: seq<Request>, queries: seq<Query>, s: Served) {
    && s.slot < |queries|
    && Settles(script, s.from, s.to)
    && Sent(asked, s.from, s.to, Request(queries[s.slot], s.token))
    && Verdict(Nth(script, s.to - 1)) == Ok(s.page)
  }

  /** A walk starts at the first page of the first query and skips nothing. */
  ghost predicate Walk(script: seq<Attempt>, asked: seq<Request>, queries: seq<Query>, trace: Trace) {
    match trace
    case Start => true
    case Then(before, s) =>
      && Walk(script, asked, queries, before)
      && Serves(script, asked, queries, s)
      && Place(s.slot, s.token, s.from) == End(before)
  }

  /** The request that is due at `p` was made last and ended in the failure. */
  ghost predicate FailsAt(script: seq<Attempt>, asked: seq<Request>, queries: seq<Query>, p: Place, e: Failure) {
    && p.slot < |queries|
    && Settles(script, p.at, |asked|)
    && Sent(asked, p.at, |asked|, Request(queries[p.slot], p.token))
    && Verdict(Nth(script, |asked| - 1)) == Err(e)
  }

  /** How the walk ends: every page of every query was read, or a request failed. */
  ghost predicate Ended(script: seq<Attempt>, asked: seq<Request>, queries: seq<Query>, trace: Trace,
                        failure: Option<Failure>)
  {
    && Walk(script, asked, queries, trace)
    && match failure
       case None => End(trace) == Place(|queries|, "", |asked|)
       case Some(e) => FailsAt(script, asked, queries, End(trace), e)
  }

  function FailureOf<T>(r: Result<T, Failure>): Option<Failure> { if r.Ok? then None else Some(r.error) }

  function TraceItems(trace: Trace): seq<Item> {
    match trace
    case Start => []
    case Then(before, s) => TraceItems(before) + PageItems(s.page)
  }

  lemma {:induction false} WalkGrows(script: seq<Attempt>, was: seq<Request>, asked: seq<Request>,
                                     queries: seq<Query>, trace: Trace)
    requires Walk(script, was, queries, trace) && was <= asked
    ensures Walk(script, asked, queries, trace)
  {
    if trace.Then? { WalkGrows(script, was, asked, queries, trace.before); }
  }

  lemma WalksOn(script: seq<Attempt>, asked: seq<Request>, queries: seq<Query>, trace: Trace, s: Served)
    requires Walk(script, asked, queries, trace) && End(trace) == Place(s.slot, s.token, s.from)
    requires Serves(script, asked, queries, s)
    ensures Walk(script, asked, queries, Then(trace, s)) && End(Then(trace, s)) == After(s)
    ensures TraceItems(Then(trace, s)) == TraceItems(trace) + PageItems(s.page)
  {
  }

  /** The walk stands at `p` and `total` is the sum so far. */
  ghost predicate Stands(w: Wire, queries: seq<Query>, key: string, trace: Trace, p: Place, total: real)
    reads w
  {
    && Walk(w.script, w.asked, queries, trace)
    && End(trace) == p && p.at == |w.asked|
    && total == SumItems(key, TraceItems(trace))
  }

  /** All pages of one query; both providers read them alike. */
  method SumPages(w: Wire, key: string, queries: seq<Query>, slot: nat, total: real, ghost earlier: Trace)
    returns (sum: Result<real, Failure>, ghost trace: Trace)
    requires slot < |queries| && Stands(w, queries, key, earlier, Place(slot, "", |w.asked|), total)
    modifies w
    ensures match sum
      case Ok(t) => Stands(w, queries, key, trace, Place(slot + 1, "", |w.asked|), t)
      case Err(e) => Walk(w.script, w.asked, queries, trace) && FailsAt(w.script, w.asked, queries, End(trace), e)
  {
    var running := total;
    var page := "";
    trace := earlier;
    while true
      invariant Stands(w, queries, key, trace, Place(slot, page, |w.asked|), running)
      decreases if |w.asked| < |w.script| then |w.script| - |w.asked| else 0
    {
      ghost var was := w.asked;
      var response := RequestWithRetries(w, Request(queries[slot], page));
      WalkGrows(w.script, was, w.asked, queries, trace);
      var verdict := Verdict(response);
      if verdict.Err? {
        return Err(verdict.error), trace;
      }
      running := AddPage(key, verdict.value, running, TraceItems(trace));
      ghost var served := Served(slot, page, |was|, |w.asked|, verdict.value);
      WalksOn(w.script, w.asked, queries, trace, served);
      trace := Then(trace, served);
      var next := NextToken(verdict.value);
      if next.None? { break; }
      page := next.value;
    }
    return Ok(running), trace;
  }

  /** `int(anchor.timestamp())`: towards zero. */
  function Truncated(t: int): int { if t >= 0 then t / SECOND else 0 - (0 - t) / SECOND }

  lemma TruncatedIs(t: int)
    ensures t >= 0 ==> 0 <= t - Truncated(t) * 1_000_000 < 1_000_000
    ensures t <= 0 ==> 0 <= Truncated(t) * 1_000_000 - t < 1_000_000
  {
  }

  function Reports(spans: seq<Span>, key: string): seq<Query> {
    seq(|spans|, i requires 0 <= i < |spans| => Report(spans[i].start / SECOND, spans[i].end / SECOND, key))
  }

  /** In whole seconds, too, the reports follow one another without gap or overlap; one of
      them asks for nothing exactly if it is the last and its span lies within a second. */
  lemma ReportsMeet(spans: seq<Span>, start: int, end: int, key: string)
    requires Tiles(spans, start, end)
    ensures var reports := Reports(spans, key);
      && (reports != [] ==> reports[0].startSecond == start / SECOND)
      && (reports != [] ==> reports[|reports| - 1].endSecond == end / SECOND)
      && (forall i, j | 0 <= i < |reports| && 0 <= j < |reports| && j == i + 1 ::
            reports[j].startSecond == reports[i].endSecond)
      && (forall i | 0 <= i < |reports| ::
            reports[i].startSecond == reports[i].endSecond
            <==> i == |reports| - 1 && spans[i].start / SECOND == end / SECOND)
  {
    var reports := Reports(spans, key);
    forall i | 0 <= i < |reports| - 1 ensures reports[i].startSecond < reports[i].endSecond {
      var next := spans[i + 1];
      assert next.start == spans[i].end == spans[i].start + MAX_SPAN;
    }
  }

  /** Each report asks for one span of one key, in seconds: 31 days unless it is the last. */
  lemma ReportIs(spans: seq<Span>, start: int, end: int, key: string, i: nat)
    requires Tiles(spans, start, end) && i < |spans|
    ensures |Reports(spans, key)| == |spans|
    ensures exists a, b ::
      && Reports(spans, key)[i] == Report(a, b, key)
      && 0 <= spans[i].start - a * 1_000_000 < 1_000_000 && 0 <= spans[i].end - b * 1_000_000 < 1_000_000
      && 0 <= b - a <= 2_678_400 && (i < |spans| - 1 ==> b - a == 2_678_400)
  {
    var a, b := spans[i].start / SECOND, spans[i].end / SECOND;
    assert Reports(spans, key)[i] == Report(a, b, key);
    if i < |spans| - 1 { assert spans[i + 1].start == spans[i].end == spans[i].start + MAX_SPAN; }
  }

  method SumOpenAiCosts(w: Wire, key: string, anchor: int)
    returns (spent: Result<real, Failure>, ghost queries: seq<Query>, ghost trace: Trace)
    requires w.asked == []
    modifies w
    ensures queries == [CostsSince(Truncated(anchor))]
    ensures Ended(w.script, w.asked, queries, trace, FailureOf(spent))
    ensures spent.Ok? ==> spent.value == SumItems(key, TraceItems(trace))
  {
    queries := [CostsSince(Truncated(anchor))];
    spent, trace := SumPages(w, key, [CostsSince(Truncated(anchor))], 0, 0.0, Start);
  }

  method SumAnthropicCosts(w: Wire, key: string, anchor: int, now: int)
    returns (spent: Result<real, Failure>, ghost spans: seq<Span>, ghost trace: Trace)
    requires w.asked == []
    modifies w
    ensures Tiles(spans, anchor, now)
    ensures Ended(w.script, w.asked, Reports(spans, key), trace, FailureOf(spent))
    ensures spent.Ok? ==> spent.value * 100.0 == SumItems(key, TraceItems(trace))
  {
    var cents := 0.0;
    var chunks := ChunkUtcDays(anchor, now);
    spans, trace := chunks, Start;
    for i := 0 to |chunks|
      invariant Stands(w, Reports(chunks, key), key, trace, Place(i, "", |w.asked|), cents)
    {
      spent, trace := SumPages(w, key, Reports(chunks, key), i, cents, trace);
      if spent.Err? { return; }
      cents := spent.value;
    }
    spent := Ok(cents / 100.0);
  }

  // ---------------------------------------------------------------- one synchronisation

  datatype Provider = OpenAi | Anthropic
  datatype Balance = Balance(spent: real, remaining: real, keyId: string)

  /** The cost requests a synchronisation has to make. */
  ghost predicate Queries(p: Provider, key: string, anchor: int, now: int, queries: seq<Query>) {
    match p
    case OpenAi => queries == [CostsSince(Truncated(anchor))]
    case Anthropic => exists spans :: Tiles(spans, anchor, now) && queries == Reports(spans, key)
  }

  /** OpenAI bills dollars, Anthropic cents. */
  predicate Amounts(p: Provider, usd: real, billed: real) { if p.OpenAi? then usd == billed else usd * 100.0 == billed }

  /** A synchronisation that succeeded, with what it asked and read. */
  datatype Sync = Sync(balance: Balance, asked: seq<Request>, queries: seq<Query>, trace: Trace)

  /** It read every page, and what is spent is the sum of all rows for its key. */
  ghost predicate Synced(p: Provider, script: seq<Attempt>, anchor: int, now: int, initial: real, s: Sync) {
    && Queries(p, s.balance.keyId, anchor, now, s.queries)
    && Ended(script, s.asked, s.queries, s.trace, None)
    && Amounts(p, s.balance.spent, SumItems(s.balance.keyId, TraceItems(s.trace)))
    && s.balance.spent + s.balance.remaining == initial
  }

  /** `keyId` is the cached key id or what the look-up of the key answered. */
  method SyncBalance(p: Provider, w: Wire, keyId: Result<string, Failure>, initial: real, anchor: int, now: int)
    returns (r: Result<Balance, Failure>, ghost queries: seq<Query>, ghost trace: Trace)
    requires w.asked == []
    modifies w
    ensures keyId.Err? ==> r == Err(keyId.error) && w.asked == []
    ensures keyId.Ok? ==> Queries(p, keyId.value, anchor, now, queries)
    ensures keyId.Ok? ==> Ended(w.script, w.asked, queries, trace, FailureOf(r))
    ensures r.Ok? ==> keyId == Ok(r.value.keyId)
    ensures r.Ok? ==> Synced(p, w.script, anchor, now, initial, Sync(r.value, w.asked, queries, trace))
  {
    queries, trace := [], Start;
    if keyId.Err? { return Err(keyId.error), [], Start; }
    var spent;
    if p.OpenAi? {
      spent, queries, trace := SumOpenAiCosts(w, keyId.value, anchor);
    } else {
      ghost var spans;
      spent, spans, trace := SumAnthropicCosts(w, keyId.value, anchor, now);
      queries := Reports(spans, keyId.value);
    }
    if spent.Err? { return Err(spent.error), queries, trace; }
    r := Ok(Balance(spent.value, initial - spent.value, keyId.value));
  }

  // ---------------------------------------------------------------- consequences

  lemma SettlesOnce(script: seq<Attempt>, from: nat, to: nat, to': nat)
    requires Settles(script, from, to) && Settles(script, from, to')
    ensures to == to'
  {
  }

  function Length(trace: Trace): nat { if trace.Start? then 0 else Length(trace.before) + 1 }

  lemma {:induction false} SamePages(script: seq<Attempt>, queries: seq<Query>, asked: seq<Request>, t: Trace,
                                     asked': seq<Request>, t': Trace)
    requires Walk(script, asked, queries, t) && Walk(script, asked', queries, t') && Length(t) == Length(t')
    ensures t == t'
  {
    if t.Then? {
      SamePages(script, queries, asked, t.before, asked', t'.before);
      SettlesOnce(script, t.s.from, t.s.to, t'.s.to);
    }
  }

  lemma {:induction false} NotLonger(script: seq<Attempt>, queries: seq<Query>, asked: seq<Request>, t: Trace,
                                     failure: Option<Failure>, asked': seq<Request>, t': Trace)
    requires Ended(script, asked, queries, t, failure) && Walk(script, asked', queries, t')
    ensures Length(t') <= Length(t)
    decreases t'
  {
    if t'.Then? {
      NotLonger(script, queries, asked, t, failure, asked', t'.before);
      if Length(t'.before) == Length(t) {
        SamePages(script, queries, asked, t, asked', t'.before);
        if failure.Some? { SettlesOnce(script, t'.s.from, t'.s.to, |asked|); }
      }
    }
  }

  /** The answers of the network decide the walk: two ends of the same walk read the same
      pages, after as many attempts, and agree on success and on the failure. */
  lemma EndIsDetermined(script: seq<Attempt>, queries: seq<Query>,
                        asked: seq<Request>, t: Trace, failure: Option<Failure>,
                        asked': seq<Request>, t': Trace, failure': Option<Failure>)
    requires Ended(script, asked, queries, t, failure) && Ended(script, asked', queries, t', failure')
    ensures t == t' && failure == failure' && |asked| == |asked'|
  {
    NotLonger(script, queries, asked, t, failure, asked', t');
    NotLonger(script, queries, asked', t', failure', asked, t);
    SamePages(script, queries, asked, t, asked', t');
    if failure.Some? && failure'.Some? { SettlesOnce(script, End(t).at, |asked|, |asked'|); }
  }

  /** One bad page anywhere spoils the whole sum: a walk that reaches a request with any
      other end than a 200 page cannot succeed, however it goes on. */
  lemma BadPageMeansNoSum(script: seq<Attempt>, queries: seq<Query>,
                          asked: seq<Request>, t: Trace, failure: Option<Failure>,
                          bad: seq<Request>, upToBad: Trace)
    requires Ended(script, asked, queries, t, failure)
    requires Walk(script, bad, queries, upToBad) && End(upToBad).slot < |queries|
    requires Settles(script, End(upToBad).at, |bad|)
    requires Sent(bad, End(upToBad).at, |bad|, Request(queries[End(upToBad).slot], End(upToBad).token))
    requires var a := Nth(script, |bad| - 1); a.Broken? || a.status != 200 || !a.body.Object?
    ensures failure.Some? && failure == FailureOf(Verdict(Nth(script, |bad| - 1)))
    ensures var a := Nth(script, |bad| - 1);
      && (failure == Some(AdminInvalid) <==> a.Answer? && a.status == 401)
      && (failure == Some(AdminForbidden) <==> a.Answer? && a.status == 403)
      && (failure == Some(Raised) <==> a.Broken? || (a.status == 200 && a.body == NotJson))
      && failure != Some(KeyNotFound)
  {
    var verdict := Verdict(Nth(script, |bad| - 1));
    FailureSaysWhy(Nth(script, |bad| - 1));
    EndIsDetermined(script, queries, asked, t, failure, bad, upToBad, Some(verdict.error));
  }

  // ---------------------------------------------------------------- several keys

  function SumOverKeys(keys: seq<string>, items: seq<Item>): real {
    if keys == [] then 0.0 else SumOverKeys(keys[..|keys| - 1], items) + SumItems(keys[|keys| - 1], items)
  }

  function SharesOf(keys: seq<string>, item: Item): real {
    if keys == [] then 0.0 else SharesOf(keys[..|keys| - 1], item) + Share(keys[|keys| - 1], item)
  }

  /** Everything billed, and the part of it that no key is named for. */
  function Billed(items: seq<Item>): real {
    if items == [] then 0.0 else Billed(items[..|items| - 1]) + Value(items[|items| - 1])
  }

  function Unattributed(items: seq<Item>): real {
    if items == [] then 0.0 else Unattributed(items[..|items| - 1]) + Loose(items[|items| - 1])
  }

  function Value(item: Item): real { if item.Row? then ParseAmount(item.amount).GetOr(0.0) else 0.0 }

  function Loose(item: Item): real { if item.Row? && item.key.None? then Value(item) else 0.0 }

  function Times(n: nat, x: real): real { if n == 0 then 0.0 else Times(n - 1, x) + x }

  lemma {:induction false} TimesAdds(n: nat, x: real, y: real)
    ensures Times(n, x + y) == Times(n, x) + Times(n, y)
  {
    if n > 0 { TimesAdds(n - 1, x, y); }
  }

  lemma {:induction false} TimesOfZero(n: nat)
    ensures Times(n, 0.0) == 0.0
  {
    if n > 0 { TimesOfZero(n - 1); }
  }

  lemma {:induction false} TimesGrows(n: nat, x: real)
    requires n >= 2 && x != 0.0
    ensures if x > 0.0 then Times(n, x) > x else Times(n, x) < x
  {
    assert Times(1, x) == Times(0, x) + x;
    if n > 2 { TimesGrows(n - 1, x); } else { assert Times(2, x) == Times(1, x) + x; }
  }

  /** What a row that names one of the keys is worth. */
  function Named(keys: seq<string>, item: Item): real {
    if item.Row? && item.key.Some? && item.key.value in keys then Value(item) else 0.0
  }

  /** What is billed to some of the keys by name. */
  function BilledTo(keys: seq<string>, items: seq<Item>): real {
    if items == [] then 0.0 else BilledTo(keys, items[..|items| - 1]) + Named(keys, items[|items| - 1])
  }

  predicate Covered(keys: seq<string>, item: Item) { item.Row? && item.key.Some? ==> item.key.value in keys }

  /** If no row names another key this is the whole bill. */
  lemma {:induction false} WholeBill(keys: seq<string>, items: seq<Item>)
    requires forall item <- items :: Covered(keys, item)
    ensures BilledTo(keys, items) + Unattributed(items) == Billed(items)
  {
    if items != [] {
      assert Covered(keys, items[|items| - 1]);
      WholeBill(keys, items[..|items| - 1]);
    }
  }

  lemma {:induction false} SharesOfItem(keys: seq<string>, item: Item)
    requires Distinct(keys)
    ensures SharesOf(keys, item) == Times(|keys|, Loose(item)) + Named(keys, item)
  {
    if keys != [] {
      SharesOfItem(keys[..|keys| - 1], item);
      assert keys == keys[..|keys| - 1] + [keys[|keys| - 1]];
    }
    if Loose(item) == 0.0 { TimesOfZero(|keys|); }
  }

  lemma {:induction false} SumOverKeysSnoc(keys: seq<string>, items: seq<Item>, item: Item)
    ensures SumOverKeys(keys, items + [item]) == SumOverKeys(keys, items) + SharesOf(keys, item)
  {
    if keys != [] {
      SumItemsSnoc(keys[|keys| - 1], items, item);
      SumOverKeysSnoc(keys[..|keys| - 1], items, item);
    }
  }

  lemma {:induction false} SumOverKeysEmpty(keys: seq<string>)
    ensures SumOverKeys(keys, []) == 0.0
  {
    if keys != [] { SumOverKeysEmpty(keys[..|keys| - 1]); }
  }

  /** Over one list of rows, those that name a key count once and the rest once per key. */
  lemma {:induction false} SumsOverKeys(keys: seq<string>, items: seq<Item>)
    requires Distinct(keys)
    ensures SumOverKeys(keys, items) == BilledTo(keys, items) + Times(|keys|, Unattributed(items))
  {
    if items == [] {
      SumOverKeysEmpty(keys);
      TimesOfZero(|keys|);
    } else {
      var rest, item := items[..|items| - 1], items[|items| - 1];
      assert items == rest + [item];
      SumsOverKeys(keys, rest);
      SumOverKeysSnoc(keys, rest, item);
      SharesOfItem(keys, item);
      TimesAdds(|keys|, Unattributed(rest), Loose(item));
    }
  }

  /** Each row counts in full for the whole bill; for the named keys or among the rows
      without a key it counts if that is what it is. */
  lemma RowIsBilled(keys: seq<string>, items: seq<Item>, k: string, v: real)
    ensures Billed([]) == Unattributed([]) == BilledTo(keys, []) == 0.0
    ensures var more := items + [Row(None, Number(v))];
      && Billed(more) == Billed(items) + v && Unattributed(more) == Unattributed(items) + v
      && BilledTo(keys, more) == BilledTo(keys, items)
    ensures var more := items + [Row(Some(k), Number(v))];
      && Billed(more) == Billed(items) + v && Unattributed(more) == Unattributed(items)
      && BilledTo(keys, more) == BilledTo(keys, items) + if k in keys then v else 0.0
  {
    assert (items + [Row(None, Number(v))])[..|items|] == items;
    assert (items + [Row(Some(k), Number(v))])[..|items|] == items;
  }

  lemma {:induction false} TimesIs(n: nat, x: real)
    ensures Times(n, x) == n as real * x
  {
    if n > 0 {
      TimesIs(n - 1, x);
      assert (n - 1) as real * x + x == n as real * x;
    }
  }

  /** The total is taken over all synchronisations. */
  lemma TotalIs(syncs: seq<Sync>, s: Sync)
    ensures TotalSpent([]) == 0.0 && TotalSpent(syncs + [s]) == TotalSpent(syncs) + s.balance.spent
    ensures KeyIds([]) == [] && KeyIds(syncs + [s]) == KeyIds(syncs) + [s.balance.keyId]
  {
    assert (syncs + [s])[..|syncs|] == syncs;
  }

  function KeyIds(syncs: seq<Sync>): seq<string> {
    if syncs == [] then [] else KeyIds(syncs[..|syncs| - 1]) + [syncs[|syncs| - 1].balance.keyId]
  }

  function TotalSpent(syncs: seq<Sync>): real {
    if syncs == [] then 0.0 else TotalSpent(syncs[..|syncs| - 1]) + syncs[|syncs| - 1].balance.spent
  }

  ghost predicate Read(items: seq<Item>, s: Sync) { s.balance.spent == SumItems(s.balance.keyId, items) }

  lemma {:induction false} TotalIsSumOverKeys(syncs: seq<Sync>, items: seq<Item>)
    requires forall s <- syncs :: Read(items, s)
    ensures |KeyIds(syncs)| == |syncs| && TotalSpent(syncs) == SumOverKeys(KeyIds(syncs), items)
  {
    if syncs != [] {
      var before, last := syncs[..|syncs| - 1], syncs[|syncs| - 1];
      TotalIsSumOverKeys(before, items);
      assert Read(items, last);
      assert KeyIds(syncs)[..|before|] == KeyIds(before);
    }
  }

  /** The OpenAI query names no key, so synchronisations of several keys that get the same
      answers read the same rows. */
  lemma OpenAiReadsTheSameRows(script: seq<Attempt>, anchor: int, now: int,
                               a: Sync, initial: real, b: Sync, initial': real)
    requires Synced(OpenAi, script, anchor, now, initial, a) && Synced(OpenAi, script, anchor, now, initial', b)
    ensures Read(TraceItems(a.trace), b)
  {
    EndIsDetermined(script, a.queries, a.asked, a.trace, None, b.asked, b.trace, None);
  }

  /** Several keys of an OpenAI organisation, synchronised over the same answers. */
  ghost predicate AllSynced(script: seq<Attempt>, anchor: int, now: int, syncs: seq<Sync>, items: seq<Item>) {
    && syncs != [] && items == TraceItems(syncs[0].trace)
    && (forall s <- syncs :: exists initial :: Synced(OpenAi, script, anchor, now, initial, s))
    && Distinct(KeyIds(syncs))
  }

  /** Rows without a key id are charged to every key: what the keys have spent together is
      what names one of them, and once per key what names none. */
  lemma KeysShareTheBill(script: seq<Attempt>, anchor: int, now: int, syncs: seq<Sync>, items: seq<Item>)
    requires AllSynced(script, anchor, now, syncs, items)
    ensures TotalSpent(syncs) == BilledTo(KeyIds(syncs), items) + Times(|syncs|, Unattributed(items))
  {
    assert syncs[0] in syncs;
    var initial :| Synced(OpenAi, script, anchor, now, initial, syncs[0]);
    forall s <- syncs ensures Read(items, s) {
      var initial' :| Synced(OpenAi, script, anchor, now, initial', s);
      OpenAiReadsTheSameRows(script, anchor, now, syncs[0], initial, s, initial');
    }
    TotalIsSumOverKeys(syncs, items);
    SumsOverKeys(KeyIds(syncs), items);
  }

  /** So the keys together account once for each row that concerns them exactly if there is
      one key, or nothing is left unattributed; if no row names another key this is the
      whole bill. */
  lemma BillIsConservedIff(script: seq<Attempt>, anchor: int, now: int, syncs: seq<Sync>, items: seq<Item>)
    requires AllSynced(script, anchor, now, syncs, items)
    ensures TotalSpent(syncs) == BilledTo(KeyIds(syncs), items) + Unattributed(items)
       <==> |syncs| == 1 || Unattributed(items) == 0.0
    ensures (forall item <- items :: Covered(KeyIds(syncs), item)) ==>
      BilledTo(KeyIds(syncs), items) + Unattributed(items) == Billed(items)
  {
    var loose := Unattributed(items);
    KeysShareTheBill(script, anchor, now, syncs, items);
    if forall item <- items :: Covered(KeyIds(syncs), item) { WholeBill(KeyIds(syncs), items); }
    if |syncs| >= 2 && loose != 0.0 { TimesGrows(|syncs|, loose); }
    if |syncs| == 1 { assert Times(1, loose) == Times(0, loose) + loose; }
    if loose == 0.0 { TimesOfZero(|syncs|); }
  }

  /** A network whose only answer is a page that names no other. */
  lemma OnePageIsAll(script: seq<Attempt>, query: Query, page: Page) returns (asked: seq<Request>, trace: Trace)
    requires script == [Answer(200, Object(page))] && !page.hasMore
    ensures Ended(script, asked, [query], trace, None) && TraceItems(trace) == PageItems(page)
  {
    asked := [Request(query, "")];
    var served := Served(0, "", 0, 1, page);
    trace := Then(Start, served);
    assert Nth(script, 0) == Answer(200, Object(page));
    assert Serves(script, asked, [query], served);
    assert End(Start) == Place(0, "", 0) && Walk(script, asked, [query], Start);
    assert End(trace) == After(served) == Place(1, "", 1);
    assert TraceItems(Start) == [] && [] + PageItems(page) == PageItems(page);
  }

  lemma SingleRow(key: string, row: Item)
    ensures SumItems(key, [row]) == Share(key, row) && Billed([row]) == Value(row)
    ensures BucketItems([Results([row])]) == [row]
  {
    assert [row][..0] == [] && [Results([row])][..0] == [];
    assert SumItems(key, []) == 0.0 && Billed([]) == 0.0;
    assert BucketItems([]) == [] && [] + [row] == [row];
  }

  lemma TwoSyncs(a: Sync, b: Sync)
    ensures KeyIds([a, b]) == [a.balance.keyId, b.balance.keyId]
    ensures TotalSpent([a, b]) == a.balance.spent + b.balance.spent
    ensures a.balance.keyId != b.balance.keyId ==> Distinct(KeyIds([a, b]))
  {
    assert [a, b][..1] == [a] && [a][..0] == [];
    assert KeyIds([]) == [] && KeyIds([a]) == [] + [a.balance.keyId] == [a.balance.keyId];
    assert TotalSpent([]) == 0.0 && TotalSpent([a]) == a.balance.spent;
    var ids := [a.balance.keyId, b.balance.keyId];
    assert ids[..1] == [a.balance.keyId] && ids[..1][..0] == [];
    assert Distinct(ids[..1]);
  }

  /** What a key has spent after one row that names no key. */
  lemma LooseRowIsCharged(script: seq<Attempt>, anchor: int, now: int, asked: seq<Request>, trace: Trace, row: Item,
                          key: string)
    returns (s: Sync)
    requires Ended(script, asked, [CostsSince(Truncated(anchor))], trace, None) && TraceItems(trace) == [row]
    requires row.Row? && row.key.None?
    ensures s.asked == asked && s.trace == trace && s.balance.keyId == key && s.balance.spent == Value(row)
    ensures Synced(OpenAi, script, anchor, now, 100.0, s)
  {
    SingleRow(key, row);
    s := Sync(Balance(Value(row), 100.0 - Value(row), key), asked, [CostsSince(Truncated(anchor))], trace);
  }

  lemma BothSynced(script: seq<Attempt>, anchor: int, now: int, a: Sync, b: Sync, row: Item)
    requires Synced(OpenAi, script, anchor, now, 100.0, a) && Synced(OpenAi, script, anchor, now, 100.0, b)
    requires TraceItems(a.trace) == [row] && row.Row? && row.key.None?
    requires Distinct(KeyIds([a, b]))
    ensures AllSynced(script, anchor, now, [a, b], [row])
  {
    var syncs := [a, b];
    forall s | s in syncs ensures exists initial :: Synced(OpenAi, script, anchor, now, initial, s) {
      assert s == a || s == b;
    }
  }

  /** One page with one row that names no key, say of 7: each of two keys has spent 7. */
  lemma TwoKeysPayTwice(anchor: int, now: int, amount: Amount) returns (script: seq<Attempt>, a: Sync, b: Sync)
    ensures var items := TraceItems(a.trace);
      && AllSynced(script, anchor, now, [a, b], items)
      && Billed(items) == ParseAmount(amount).GetOr(0.0) && TotalSpent([a, b]) == 2.0 * Billed(items)
  {
    var row := Row(None, amount);
    var page := Page(Some([Results([row])]), false, None);
    script := [Answer(200, Object(page))];
    var asked, trace := OnePageIsAll(script, CostsSince(Truncated(anchor)), page);
    SingleRow("", row);
    a := LooseRowIsCharged(script, anchor, now, asked, trace, row, "a");
    b := LooseRowIsCharged(script, anchor, now, asked, trace, row, "b");
    TwoSyncs(a, b);
    BothSynced(script, anchor, now, a, b, row);
  }
}

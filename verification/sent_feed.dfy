/** The feed of sent mail: the keyset query, the service call around it and walks that
    follow its cursors while the table keeps changing. */
module SentFeed {
  import opened Prelude
  import opened Cursor
  import opened UuidIds

  /** The columns the feed selects and sorts by; `id` is the primary key. */
  datatype Row = Row(at: int, id: Uuid, account: int)

  ghost predicate UniqueIds(rows: set<Row>) {
    forall a, b | a in rows && b in rows && a.id == b.id :: a == b
  }

  /** Position in time, ties broken by id: `(sent_at, id)` as the query compares it. */
  predicate Before(a: Row, at: int, id: Uuid) { a.at < at || (a.at == at && a.id < id) }

  predicate Older(a: Row, b: Row) { Before(a, b.at, b.id) }

  ghost predicate Descending(s: seq<Row>) {
    forall i, j | 0 <= i < j < |s| :: Older(s[j], s[i])
  }

  // ---------------------------------------------------------------- the query

  type Accounts = Option<set<int>>

  datatype Position = Start | After(at: int, id: Uuid)

  /** The WHERE clause. */
  predicate Selects(accounts: Accounts, from: Position, r: Row) {
    && (accounts.Some? ==> r.account in accounts.value)
    && (from.After? ==> Before(r, from.at, from.id))
  }

  function Selected(rows: set<Row>, accounts: Accounts, from: Position): (s: set<Row>)
    ensures UniqueIds(rows) ==> UniqueIds(s)
    ensures forall r :: r in s <==> r in rows && Selects(accounts, from, r)
  {
    set r | r in rows && Selects(accounts, from, r)
  }

  ghost predicate IsNewest(m: Row, s: set<Row>) {
    m in s && forall r | r in s :: r == m || Older(r, m)
  }

  lemma {:induction false} NewestExists(s: set<Row>)
    requires s != {} && UniqueIds(s)
    ensures exists m :: IsNewest(m, s)
  {
    var m :| m in s;
    var rest := s - {m};
    assert forall r | r in s :: r == m || r in rest;
    if rest == {} {
      assert IsNewest(m, s);
    } else {
      NewestExists(rest);
      var n :| IsNewest(n, rest);
      assert n in s && n.id != m.id;
      assert IsNewest(if Older(m, n) then n else m, s);
    }
  }

  ghost function Newest(s: set<Row>): (m: Row)
    requires s != {} && UniqueIds(s)
    ensures IsNewest(m, s)
  {
    NewestExists(s);
    var m :| IsNewest(m, s);
    m
  }

  /** ORDER BY sent_at DESC, id DESC */
  ghost function Sorted(s: set<Row>): (r: seq<Row>)
    requires UniqueIds(s)
    ensures |r| == |s|
  {
    if s == {} then [] else [Newest(s)] + Sorted(s - {Newest(s)})
  }

  ghost predicate Lists(r: seq<Row>, s: set<Row>) {
    Descending(r) && forall x :: x in r <==> x in s
  }

  lemma {:induction false} SortedLists(s: set<Row>)
    requires UniqueIds(s)
    ensures Lists(Sorted(s), s)
  {
    if s != {} {
      var m := Newest(s);
      var tail := Sorted(s - {m});
      SortedLists(s - {m});
      forall i, j | 0 <= i < j < |Sorted(s)| ensures Older(Sorted(s)[j], Sorted(s)[i]) {
        assert tail[j - 1] in tail;
        assert i > 0 ==> Sorted(s)[i] == tail[i - 1];
      }
    }
  }

  /** Newest first, ties by the higher id, and each of the rows. */
  lemma NewestComesFirst(s: set<Row>, i: nat, j: nat)
    requires UniqueIds(s) && i < j < |Sorted(s)|
    ensures var a, b := Sorted(s)[i], Sorted(s)[j];
      a in s && b in s && (a.at > b.at || (a.at == b.at && a.id > b.id))
  {
    SortedLists(s);
    assert Older(Sorted(s)[j], Sorted(s)[i]);
  }

  function Take(s: seq<Row>, n: nat): (r: seq<Row>) { if |s| <= n then s else s[..n] }

  ghost function ListFeed(rows: set<Row>, accounts: Accounts, from: Position, limit: nat): seq<Row>
    requires UniqueIds(rows)
  {
    if accounts == Some({}) then [] else Take(Sorted(Selected(rows, accounts, from)), limit)
  }

  // ---------------------------------------------------------------- the service call

  const LIMIT_MIN := 1
  const LIMIT_MAX := 200

  datatype FeedError = InvalidLimit | InvalidCursor
  datatype Page = Page(rows: seq<Row>, next: Option<string>)

  /** The two directions between positions and the texts a client carries. */
  datatype Tokens = Tokens(encode: (int, Uuid) -> string, decode: string -> Option<(int, Uuid)>)

  ghost predicate Faithful(tk: Tokens) {
    forall at: int, id: Uuid :: tk.encode(at, id) != "" && tk.decode(tk.encode(at, id)) == Some((at, id))
  }

  function SentTokens(lib: Library<int>): Tokens {
    Tokens((at: int, id: Uuid) => Encode(lib, IDS, at, id),
           cursor => match Decode(lib, IDS, cursor)
             case Ok(p) => Some(p)
             case Err(_) => None)
  }

  lemma SentTokensFaithful(lib: Library<int>)
    requires Inverse(lib) && forall t :: lib.aware(t)
    ensures Faithful(SentTokens(lib))
  {
    UuidIdsReadable();
    var tk := SentTokens(lib);
    forall at: int, id: Uuid
      ensures tk.encode(at, id) != "" && tk.decode(tk.encode(at, id)) == Some((at, id))
    {
      RoundTrip(lib, IDS, at, id);
    }
  }

  /** One row more than asked tells whether there is another page; its cursor is the
      position of the last row shown. An empty `before` is no cursor. */
  ghost function ListSent(tk: Tokens, rows: set<Row>, accounts: Accounts, before: string, limit: int)
    : Result<Page, FeedError>
    requires UniqueIds(rows)
  {
    if limit < LIMIT_MIN || limit > LIMIT_MAX then Err(InvalidLimit)
    else if before == "" then Ok(PageAt(tk, rows, accounts, Start, limit))
    else
      match tk.decode(before)
      case None => Err(InvalidCursor)
      case Some(p) => Ok(PageAt(tk, rows, accounts, After(p.0, p.1), limit))
  }

  ghost function PageAt(tk: Tokens, rows: set<Row>, accounts: Accounts, from: Position, limit: nat): Page
    requires UniqueIds(rows) && limit >= LIMIT_MIN
  {
    var found := ListFeed(rows, accounts, from, limit + 1);
    var shown := Take(found, limit);
    Page(shown, if |found| > limit then Some(tk.encode(shown[|shown| - 1].at, shown[|shown| - 1].id)) else None)
  }

  /** When a request is refused. */
  lemma RefusedIff(tk: Tokens, rows: set<Row>, accounts: Accounts, before: string, limit: int)
    requires UniqueIds(rows)
    ensures ListSent(tk, rows, accounts, before, limit) == Err(InvalidLimit) <==> limit < 1 || limit > 200
    ensures ListSent(tk, rows, accounts, before, limit) == Err(InvalidCursor) <==>
      1 <= limit <= 200 && before != "" && tk.decode(before).None?
  {
  }

  /** A row that the client may see, below the position that its cursor names. */
  ghost predicate Due(tk: Tokens, rows: set<Row>, accounts: Accounts, before: string, r: Row) {
    && r in rows
    && (accounts.Some? ==> r.account in accounts.value)
    && (before != "" && tk.decode(before).Some? ==>
          var p := tk.decode(before).value;
          r.at < p.0 || (r.at == p.0 && r.id < p.1))
  }

  /** The first rows of a descending list, and what is left of it. */
  lemma DueAndShown(all: seq<Row>, limit: nat)
    requires Descending(all) && limit >= 1
    ensures var shown := Take(all, limit);
      && (forall r | r in shown :: r in all)
      && (|all| <= limit ==> shown == all)
      && (|all| > limit ==>
            && |shown| == limit && all[limit] in all && all[limit] !in shown
            && forall r | r in all && r !in shown :: Older(r, all[limit - 1]))
  {
    var shown := Take(all, limit);
    if |all| > limit {
      forall k | 0 <= k < limit ensures shown[k] != all[limit] { assert Older(all[limit], all[k]); }
      forall k | limit <= k < |all| ensures Older(all[k], all[limit - 1]) { }
      forall r | r in all && r !in shown ensures Older(r, all[limit - 1]) { BehindShown(all, limit, r); }
    }
  }

  lemma BehindShown(all: seq<Row>, limit: nat, r: Row)
    requires Descending(all) && 1 <= limit <= |all| && r in all && r !in all[..limit]
    ensures Older(r, all[limit - 1])
  {
    assert all == all[..limit] + all[limit..];
    var k :| 0 <= k < |all[limit..]| && all[limit..][k] == r;
    assert all[limit + k] == r;
  }

  /** What a page is, in the fields of its rows: newest first, ties by the higher id, no
      more than asked, only rows that are due, and all of them except some below its last,
      which is where the next cursor points. */
  lemma PageShowsTheNewest(tk: Tokens, rows: set<Row>, accounts: Accounts, before: string, limit: int)
    requires Faithful(tk) && UniqueIds(rows) && ListSent(tk, rows, accounts, before, limit).Ok?
    ensures var page := ListSent(tk, rows, accounts, before, limit).value;
      var shown := page.rows;
      && |shown| <= limit
      && (forall i, j | 0 <= i < j < |shown| ::
            shown[i].at > shown[j].at || (shown[i].at == shown[j].at && shown[i].id > shown[j].id))
      && (forall r | r in shown :: Due(tk, rows, accounts, before, r))
      && (page.next.None? ==> forall r | Due(tk, rows, accounts, before, r) :: r in shown)
      && (page.next.Some? ==>
            && |shown| == limit
            && var last := shown[limit - 1];
               && tk.decode(page.next.value) == Some((last.at, last.id))
               && (exists r :: Due(tk, rows, accounts, before, r) && r !in shown)
               && forall r | Due(tk, rows, accounts, before, r) && r !in shown ::
                    r.at < last.at || (r.at == last.at && r.id < last.id))
  {
    var from := if before == "" then Start else After(tk.decode(before).value.0, tk.decode(before).value.1);
    var s := Selected(rows, accounts, from);
    var all := Sorted(s);
    SortedLists(s);
    PageIs(tk, rows, accounts, from, limit);
    forall r ensures Due(tk, rows, accounts, before, r) <==> r in all { }
    assert ListSent(tk, rows, accounts, before, limit) == Ok(PageAt(tk, rows, accounts, from, limit));
    PageInFields(tk, all, limit, PageAt(tk, rows, accounts, from, limit));
  }

  lemma PageInFields(tk: Tokens, all: seq<Row>, limit: nat, page: Page)
    requires Faithful(tk) && Descending(all) && limit >= 1
    requires page.rows == Take(all, limit)
    requires page.next == if |all| > limit then Some(tk.encode(all[limit - 1].at, all[limit - 1].id)) else None
    ensures |page.rows| <= limit && forall r | r in page.rows :: r in all
    ensures forall i, j | 0 <= i < j < |page.rows| ::
      var a, b := page.rows[i], page.rows[j]; a.at > b.at || (a.at == b.at && a.id > b.id)
    ensures page.next.None? ==> forall r | r in all :: r in page.rows
    ensures page.next.Some? ==>
      && |page.rows| == limit
      && var last := page.rows[limit - 1];
         && tk.decode(page.next.value) == Some((last.at, last.id))
         && (exists r :: r in all && r !in page.rows)
         && forall r | r in all && r !in page.rows :: r.at < last.at || (r.at == last.at && r.id < last.id)
  {
    DueAndShown(all, limit);
    forall i, j | 0 <= i < j < |page.rows|
      ensures var a, b := page.rows[i], page.rows[j]; a.at > b.at || (a.at == b.at && a.id > b.id)
    {
      assert Older(all[j], all[i]);
    }
  }

  // ---------------------------------------------------------------- walks

  /** The rows a client collects by following the cursors; request `k` sees `tables[k]`. */
  ghost function Walk(tk: Tokens, tables: seq<set<Row>>, accounts: Accounts, before: string, limit: int): seq<Row>
    requires forall t | t in tables :: UniqueIds(t)
  {
    if tables == [] then []
    else
      match ListSent(tk, tables[0], accounts, before, limit)
      case Err(_) => []
      case Ok(page) =>
        if page.next.None? then page.rows
        else page.rows + Walk(tk, tables[1..], accounts, page.next.value, limit)
  }

  /** The client got a page without a next cursor. */
  ghost predicate Finishes(tk: Tokens, tables: seq<set<Row>>, accounts: Accounts, before: string, limit: int)
    requires forall t | t in tables :: UniqueIds(t)
  {
    tables != [] &&
    match ListSent(tk, tables[0], accounts, before, limit)
    case Err(_) => false
    case Ok(page) => page.next.None? || Finishes(tk, tables[1..], accounts, page.next.value, limit)
  }

  /** The text a client sends for a position. */
  ghost predicate Names(tk: Tokens, before: string, from: Position) {
    match from
    case Start => before == ""
    case After(at, id) => before == tk.encode(at, id)
  }

  lemma OneMoreThanShown(all: seq<Row>, limit: nat)
    ensures Take(Take(all, limit + 1), limit) == Take(all, limit)
    ensures |Take(all, limit + 1)| > limit <==> |all| > limit
  {
  }

  lemma PageIs(tk: Tokens, rows: set<Row>, accounts: Accounts, from: Position, limit: nat)
    requires UniqueIds(rows) && limit >= LIMIT_MIN
    ensures var all := Sorted(Selected(rows, accounts, from));
      PageAt(tk, rows, accounts, from, limit) ==
        Page(Take(all, limit), if |all| > limit then Some(tk.encode(all[limit - 1].at, all[limit - 1].id)) else None)
  {
    OneMoreThanShown(Sorted(Selected(rows, accounts, from)), limit);
    if accounts == Some({}) { assert Selected(rows, accounts, from) == {}; }
  }

  /** What one request yields in terms of the sorted selection. */
  lemma Request(tk: Tokens, rows: set<Row>, accounts: Accounts, before: string, from: Position, limit: int)
    requires Faithful(tk) && UniqueIds(rows)
    requires Names(tk, before, from) && LIMIT_MIN <= limit <= LIMIT_MAX
    ensures var all := Sorted(Selected(rows, accounts, from));
      var page := ListSent(tk, rows, accounts, before, limit);
      && page.Ok?
      && page.value.rows == Take(all, limit)
      && (page.value.next.None? <==> |all| <= limit)
      && (page.value.next.Some? ==> Names(tk, page.value.next.value, After(all[limit - 1].at, all[limit - 1].id)))
  {
    PageIs(tk, rows, accounts, from, limit);
    assert ListSent(tk, rows, accounts, before, limit) == Ok(PageAt(tk, rows, accounts, from, limit));
  }

  function OlderRows(s: set<Row>, last: Row): (r: set<Row>)
    ensures UniqueIds(s) ==> UniqueIds(r)
  {
    set r | r in s && Older(r, last)
  }

  lemma OlderThanNewest(s: set<Row>, x: Row)
    requires UniqueIds(s) && x in s
    ensures var rest := s - {Newest(s)};
      OlderRows(s, x) == if x == Newest(s) then rest else OlderRows(rest, x)
  {
    var m := Newest(s);
    forall r | r in s ensures Older(r, m) <==> r != m { }
    assert Older(x, m) || x == m;
  }

  lemma SortedHead(s: set<Row>)
    requires UniqueIds(s) && s != {}
    ensures Sorted(s)[0] == Newest(s)
    ensures Sorted(s)[1..] == Sorted(s - {Newest(s)})
  {
  }

  /** The rows older than the `k`th of a sorted set are the rows after it. */
  lemma {:induction false} SortedTail(s: set<Row>, k: nat)
    requires UniqueIds(s) && 1 <= k <= |s|
    ensures Sorted(OlderRows(s, Sorted(s)[k - 1])) == Sorted(s)[k..]
  {
    SortedHead(s);
    var all, rest := Sorted(s), s - {Newest(s)};
    if k == 1 {
      OlderThanNewest(s, all[0]);
    } else {
      var last := Sorted(rest)[k - 2];
      SortedTail(rest, k - 1);
      SortedLists(rest);
      assert last == all[1..][k - 2] == all[k - 1];
      assert last in Sorted(rest);
      OlderThanNewest(s, last);
      assert all[1..][k - 1..] == all[k..];
    }
  }

  lemma NextSelection(rows: set<Row>, accounts: Accounts, from: Position, k: nat)
    requires UniqueIds(rows) && 1 <= k <= |Selected(rows, accounts, from)|
    ensures var all := Sorted(Selected(rows, accounts, from));
      && all[k - 1] in rows && Selects(accounts, from, all[k - 1])
      && Sorted(Selected(rows, accounts, After(all[k - 1].at, all[k - 1].id))) == all[k..]
  {
    var s := Selected(rows, accounts, from);
    var last := Sorted(s)[k - 1];
    SortedLists(s);
    assert last in Sorted(s);
    SortedTail(s, k);
    var next := Selected(rows, accounts, After(last.at, last.id));
    forall r ensures r in next <==> r in OlderRows(s, last) {
      if Older(r, last) && from.After? { assert Before(r, from.at, from.id); }
    }
    assert next == OlderRows(s, last);
  }

  /** One page of the walk: its rows, then only rows older than its last. */
  lemma PageThenRest(rows: set<Row>, accounts: Accounts, from: Position, limit: nat)
    requires UniqueIds(rows) && 1 <= limit < |Selected(rows, accounts, from)|
    ensures var all := Sorted(Selected(rows, accounts, from));
      var last := all[limit - 1];
      && Descending(all[..limit])
      && (forall r | r in all[..limit] :: r in rows && Selects(accounts, from, r))
      && (forall r | Selects(accounts, After(last.at, last.id), r) :: Selects(accounts, from, r) && Older(r, last))
      && (forall r | r in rows && Selects(accounts, from, r) ::
            r in all[..limit] || Selects(accounts, After(last.at, last.id), r))
  {
    var s := Selected(rows, accounts, from);
    var all := Sorted(s);
    SortedLists(s);
    var last := all[limit - 1];
    assert last in all;
    forall r | r in all[..limit] ensures r in s { assert r in all; }
    forall r | r in s ensures r in all[..limit] || Older(r, last) {
      assert r in all;
      var k :| 0 <= k < |all| && all[k] == r;
      if k < limit { assert all[..limit][k] == r; }
    }
  }

  lemma FirstPage(rows: set<Row>, accounts: Accounts, from: Position, limit: nat)
    requires UniqueIds(rows) && limit >= 1
    ensures var page := Take(Sorted(Selected(rows, accounts, from)), limit);
      Descending(page) && forall r | r in page :: Selects(accounts, from, r)
  {
    var all := Sorted(Selected(rows, accounts, from));
    SortedLists(Selected(rows, accounts, from));
    forall r | r in Take(all, limit) ensures Selects(accounts, from, r) { assert r in all; }
  }

  /** However the table changes between requests, the collected rows are in strictly
      descending order, so none comes twice, and all of them lie after its start. */
  lemma {:induction false} WalkDescends(tk: Tokens, tables: seq<set<Row>>, accounts: Accounts, before: string,
                                        from: Position, limit: int)
    requires Faithful(tk) && (forall t | t in tables :: UniqueIds(t))
    requires Names(tk, before, from) && LIMIT_MIN <= limit <= LIMIT_MAX
    ensures var w := Walk(tk, tables, accounts, before, limit);
      && Descending(w)
      && (forall r | r in w :: Selects(accounts, from, r))
      && (forall i, j | 0 <= i < j < |w| :: w[i].at > w[j].at || (w[i].at == w[j].at && w[i].id > w[j].id))
      && (forall r | r in w && accounts.Some? :: r.account in accounts.value)
      && (forall r | r in w && from.After? :: r.at < from.at || (r.at == from.at && r.id < from.id))
    decreases |tables|
  {
    if tables != [] {
      var all := Sorted(Selected(tables[0], accounts, from));
      Request(tk, tables[0], accounts, before, from, limit);
      FirstPage(tables[0], accounts, from, limit);
      if |all| > limit {
        var next, last := ListSent(tk, tables[0], accounts, before, limit).value.next.value, all[limit - 1];
        WalkDescends(tk, tables[1..], accounts, next, After(last.at, last.id), limit);
        JoinPages(accounts, from, Take(all, limit), Walk(tk, tables[1..], accounts, next, limit));
      }
    }
  }

  /** Every collected row was in the table that some request saw. */
  lemma {:induction false} WalkInventsNothing(tk: Tokens, tables: seq<set<Row>>, accounts: Accounts, before: string,
                                              from: Position, limit: int, r: Row)
    requires Faithful(tk) && (forall t | t in tables :: UniqueIds(t))
    requires Names(tk, before, from) && LIMIT_MIN <= limit <= LIMIT_MAX
    requires r in Walk(tk, tables, accounts, before, limit)
    ensures exists t | t in tables :: r in t
    decreases |tables|
  {
    var s := Selected(tables[0], accounts, from);
    var all := Sorted(s);
    SortedLists(s);
    Request(tk, tables[0], accounts, before, from, limit);
    if r in Take(all, limit) {
      assert r in all;
      assert r in tables[0];
    } else {
      var next := ListSent(tk, tables[0], accounts, before, limit).value.next.value;
      WalkInventsNothing(tk, tables[1..], accounts, next, After(all[limit - 1].at, all[limit - 1].id), limit, r);
    }
  }

  /** Once a walk finishes, every selected row that stayed throughout has been collected. */
  lemma {:induction false} WalkMissesNothing(tk: Tokens, tables: seq<set<Row>>, accounts: Accounts, before: string,
                                             from: Position, limit: int, r: Row)
    requires Faithful(tk) && (forall t | t in tables :: UniqueIds(t))
    requires Names(tk, before, from) && LIMIT_MIN <= limit <= LIMIT_MAX
    requires Finishes(tk, tables, accounts, before, limit) && forall t | t in tables :: r in t
    requires accounts.Some? ==> r.account in accounts.value
    requires from.After? ==> r.at < from.at || (r.at == from.at && r.id < from.id)
    ensures r in Walk(tk, tables, accounts, before, limit)
    decreases |tables|
  {
    var s := Selected(tables[0], accounts, from);
    var all := Sorted(s);
    Request(tk, tables[0], accounts, before, from, limit);
    assert r in tables[0];
    if |all| <= limit {
      SortedLists(s);
    } else {
      PageThenRest(tables[0], accounts, from, limit);
      if r !in all[..limit] {
        var next := ListSent(tk, tables[0], accounts, before, limit).value.next.value;
        WalkMissesNothing(tk, tables[1..], accounts, next, After(all[limit - 1].at, all[limit - 1].id), limit, r);
      }
    }
  }

  lemma JoinPages(accounts: Accounts, from: Position, a: seq<Row>, b: seq<Row>)
    requires a != [] && Descending(a) && Descending(b)
    requires forall r | r in a :: Selects(accounts, from, r)
    requires var last := a[|a| - 1]; forall r | r in b :: Selects(accounts, After(last.at, last.id), r)
    ensures Descending(a + b) && forall r | r in a + b :: Selects(accounts, from, r)
  {
    var last := a[|a| - 1];
    forall r | r in b ensures Selects(accounts, from, r) && Older(r, last) {
      assert Selects(accounts, After(last.at, last.id), r) && Selects(accounts, from, last);
    }
    forall i, j | 0 <= i < j < |a + b| ensures Older((a + b)[j], (a + b)[i]) {
      if i < |a| <= j {
        assert b[j - |a|] in b;
        assert i < |a| - 1 ==> Older(last, a[i]);
      }
    }
  }

  lemma {:induction false} DescendingHasNoDuplicates(s: seq<Row>)
    requires Descending(s)
    ensures |(set r | r in s)| == |s|
  {
    if s != [] {
      var init, last := s[..|s| - 1], s[|s| - 1];
      DescendingHasNoDuplicates(init);
      assert (set r | r in s) == (set r | r in init) + {last};
    }
  }

  /** A page takes `limit` rows away from what a walk can still meet. */
  lemma PageUsesUp(u: set<Row>, rows: set<Row>, accounts: Accounts, from: Position, limit: nat)
    requires UniqueIds(rows) && rows <= u && 1 <= limit < |Selected(rows, accounts, from)|
    ensures var last := Sorted(Selected(rows, accounts, from))[limit - 1];
      |Selected(u, accounts, After(last.at, last.id))| + limit <= |Selected(u, accounts, from)|
    ensures limit < |Selected(u, accounts, from)|
  {
    var all := Sorted(Selected(rows, accounts, from));
    var last, page := all[limit - 1], set r | r in all[..limit];
    PageThenRest(rows, accounts, from, limit);
    DescendingHasNoDuplicates(all[..limit]);
    var before, left := Selected(u, accounts, from), Selected(u, accounts, After(last.at, last.id));
    forall r | r in page ensures r in before && r !in left { NotBelowLast(all[..limit], r); }
    assert page !! left && page + left <= before;
    SubsetIsSmaller(page + left, before);
    SubsetIsSmaller(Selected(rows, accounts, from), before);
  }

  lemma NotBelowLast(page: seq<Row>, r: Row)
    requires Descending(page) && r in page
    ensures !Older(r, page[|page| - 1])
  {
    var k :| 0 <= k < |page| && page[k] == r;
    assert k < |page| - 1 ==> Older(page[|page| - 1], page[k]);
  }

  lemma {:induction false} SubsetIsSmaller(a: set<Row>, b: set<Row>)
    requires a <= b
    ensures |a| <= |b|
  {
    assert b == a + (b - a);
  }

  /** Every walk ends, however the table changes: if all rows that ever appear among those
      selected are at most `n * limit`, the `n`th request is the last at the latest. */
  lemma {:induction false} WalkFinishes(tk: Tokens, tables: seq<set<Row>>, accounts: Accounts, before: string,
                                        from: Position, limit: int, u: set<Row>)
    requires Faithful(tk) && (forall t | t in tables :: UniqueIds(t) && t <= u) && tables != []
    requires Names(tk, before, from) && LIMIT_MIN <= limit <= LIMIT_MAX
    requires |Selected(u, accounts, from)| <= |tables| * limit
    ensures Finishes(tk, tables, accounts, before, limit)
    decreases |tables|
  {
    var all := Sorted(Selected(tables[0], accounts, from));
    Request(tk, tables[0], accounts, before, from, limit);
    if |all| > limit {
      PageUsesUp(u, tables[0], accounts, from, limit);
      RoomLeft(|Selected(u, accounts, from)|, |tables|, limit);
      var next := ListSent(tk, tables[0], accounts, before, limit).value.next.value;
      var last := all[limit - 1];
      WalkFinishes(tk, tables[1..], accounts, next, After(last.at, last.id), limit, u);
    }
  }

  /** Between requests rows only arrive, and each is newer than every row already there. */
  ghost predicate OnlyNewer(tables: seq<set<Row>>) {
    forall k | 0 <= k < |tables| - 1 ::
      && tables[k] <= tables[k + 1]
      && forall r, old_ | r in tables[k + 1] - tables[k] && old_ in tables[k] :: Older(old_, r)
  }

  lemma NewcomersUnseen(older: set<Row>, newer: set<Row>, accounts: Accounts, last: Row)
    requires last in older && older <= newer
    requires forall r, o | r in newer - older && o in older :: Older(o, r)
    ensures Selected(newer, accounts, After(last.at, last.id)) == Selected(older, accounts, After(last.at, last.id))
  {
    forall r | r in newer - older ensures !Selects(accounts, After(last.at, last.id), r) {
      assert Older(last, r);
    }
    var a, b := Selected(newer, accounts, After(last.at, last.id)), Selected(older, accounts, After(last.at, last.id));
    forall r ensures r in a <==> r in b {
      assert r in newer && r !in older ==> r in newer - older;
    }
  }

  /** The table of the second request holds, after the first page, what was left of the
      first table. */
  lemma SecondRequest(tables: seq<set<Row>>, accounts: Accounts, from: Position, limit: nat)
    requires |tables| > 1 && OnlyNewer(tables) && (forall t | t in tables :: UniqueIds(t))
    requires 1 <= limit <= |Selected(tables[0], accounts, from)|
    ensures var all := Sorted(Selected(tables[0], accounts, from));
      var left := Selected(tables[1], accounts, After(all[limit - 1].at, all[limit - 1].id));
      Sorted(left) == all[limit..] && |left| == |all| - limit
    ensures OnlyNewer(tables[1..]) && tables[1..][0] == tables[1]
  {
    var last := Sorted(Selected(tables[0], accounts, from))[limit - 1];
    NextSelection(tables[0], accounts, from, limit);
    assert tables[0] <= tables[0 + 1];
    NewcomersUnseen(tables[0], tables[1], accounts, last);
    forall k | 0 <= k < |tables[1..]| - 1
      ensures tables[1..][k] <= tables[1..][k + 1]
      ensures forall r, o | r in tables[1..][k + 1] - tables[1..][k] && o in tables[1..][k] :: Older(o, r)
    {
      assert tables[1..][k] == tables[k + 1] && tables[1..][k + 1] == tables[(k + 1) + 1];
    }
  }

  lemma RoomLeft(rows: nat, requests: nat, limit: nat)
    requires limit < rows <= requests * limit
    ensures requests > 1 && rows - limit <= (requests - 1) * limit
  {
  }

  /** Everything that the walk after the first page asks for. */
  lemma RestOfWalk(tables: seq<set<Row>>, accounts: Accounts, from: Position, limit: nat)
    requires tables != [] && OnlyNewer(tables) && (forall t | t in tables :: UniqueIds(t)) && limit >= 1
    requires limit < |Selected(tables[0], accounts, from)| <= |tables| * limit
    ensures var all := Sorted(Selected(tables[0], accounts, from));
      var left := tables[1..];
      && left != [] && OnlyNewer(left) && (forall t | t in left :: UniqueIds(t))
      && var rest := Selected(left[0], accounts, After(all[limit - 1].at, all[limit - 1].id));
         Sorted(rest) == all[limit..] && |rest| <= |left| * limit
  {
    RoomLeft(|Selected(tables[0], accounts, from)|, |tables|, limit);
    SecondRequest(tables, accounts, from, limit);
  }

  /** While newer rows arrive, a walk collects exactly the feed as it stood at its first
      request, and `n` requests are enough for `n * limit` rows. */
  lemma {:induction false} WalkIsTheFirstFeed(tk: Tokens, tables: seq<set<Row>>, accounts: Accounts, before: string,
                                              from: Position, limit: int)
    requires Faithful(tk) && (forall t | t in tables :: UniqueIds(t))
    requires Names(tk, before, from) && LIMIT_MIN <= limit <= LIMIT_MAX
    requires OnlyNewer(tables) && tables != []
    requires |Selected(tables[0], accounts, from)| <= |tables| * limit
    ensures Finishes(tk, tables, accounts, before, limit)
    ensures Walk(tk, tables, accounts, before, limit) == Sorted(Selected(tables[0], accounts, from))
    decreases |tables|
  {
    var all := Sorted(Selected(tables[0], accounts, from));
    Request(tk, tables[0], accounts, before, from, limit);
    if |all| > limit {
      RestOfWalk(tables, accounts, from, limit);
      var next, last := ListSent(tk, tables[0], accounts, before, limit).value.next.value, all[limit - 1];
      WalkIsTheFirstFeed(tk, tables[1..], accounts, next, After(last.at, last.id), limit);
      WalkGoesOn(tk, tables, accounts, before, limit, all[..limit], next);
      assert all == all[..limit] + all[limit..];
    } else {
      WalkEnds(tk, tables, accounts, before, limit);
    }
  }

  lemma WalkGoesOn(tk: Tokens, tables: seq<set<Row>>, accounts: Accounts, before: string, limit: int,
                   page: seq<Row>, next: string)
    requires tables != [] && forall t | t in tables :: UniqueIds(t)
    requires ListSent(tk, tables[0], accounts, before, limit) == Ok(Page(page, Some(next)))
    ensures Walk(tk, tables, accounts, before, limit) == page + Walk(tk, tables[1..], accounts, next, limit)
    ensures Finishes(tk, tables, accounts, before, limit) == Finishes(tk, tables[1..], accounts, next, limit)
  {
  }

  lemma WalkEnds(tk: Tokens, tables: seq<set<Row>>, accounts: Accounts, before: string, limit: int)
    requires tables != [] && forall t | t in tables :: UniqueIds(t)
    requires var r := ListSent(tk, tables[0], accounts, before, limit); r.Ok? && r.value.next.None?
    ensures Walk(tk, tables, accounts, before, limit) == ListSent(tk, tables[0], accounts, before, limit).value.rows
    ensures Finishes(tk, tables, accounts, before, limit)
  {
  }

  // ---------------------------------------------------------------- why the id is in the key

  function OlderThan(rows: set<Row>, bound: Option<int>): (s: set<Row>)
    ensures UniqueIds(rows) ==> UniqueIds(s)
  {
    set r | r in rows && (bound.Some? ==> r.at < bound.value)
  }

  /** The same walk with the time alone as the cursor. */
  ghost function DateWalk(rows: set<Row>, bound: Option<int>, limit: nat, requests: nat): seq<Row>
    requires UniqueIds(rows)
    decreases requests
  {
    if requests == 0 then []
    else
      var page := Take(Sorted(OlderThan(rows, bound)), limit);
      if page == [] then [] else page + DateWalk(rows, Some(page[|page| - 1].at), limit, requests - 1)
  }

  /** Paging by time alone loses rows: of two rows of one instant only one is ever shown. */
  lemma DateAloneLosesRows(requests: nat)
    ensures var a, b := Row(5, 1, 0), Row(5, 2, 0);
      UniqueIds({a, b}) && a !in DateWalk({a, b}, None, 1, requests)
  {
    var a, b := Row(5, 1, 0), Row(5, 2, 0);
    if requests > 0 {
      var all := Sorted({a, b});
      SortedLists({a, b});
      assert OlderThan({a, b}, None) == {a, b};
      assert |{a, b}| == 2;
      assert all[0] in all && all[1] in all && Older(all[1], all[0]);
      assert OlderThan({a, b}, Some(5)) == {};
      assert DateWalk({a, b}, Some(5), 1, requests - 1) == [];
      assert Take(all, 1) == [b];
    }
  }
}

/** The catalog of rights, the union of the rights of several roles and the admin level. */
module Permissions {
  import opened Prelude

  datatype Page = Dashboard | Servers | AiKeys | Proxies | Backends | BackendUsers | BackendEconomics | Mail
                | Sms | Roles | Teams | Documents | Broadcast | Users | OtherPage(name: string)

  datatype Action = View | Create | Edit | Delete | Sync | Tags | Transfer | Share | Send | AssignAny
                  | OtherAction(name: string)

  /** A catalog: its pages in the order of the matrix and the actions each page allows; a
      page outside it allows none. */
  datatype Catalog = Catalog(pages: seq<Page>, actions: Page -> seq<Action>) {
    ghost predicate Valid() {
      Distinct(pages) && forall p :: Distinct(actions(p)) && (actions(p) != [] <==> p in pages)
    }
  }

  function CurrentActions(p: Page): seq<Action> {
    match p
    case Dashboard => [View]
    case BackendUsers => [View, Edit]
    case BackendEconomics => [View, Edit]
    case Mail => [View, Create, Edit, Delete, Sync, Tags]
    case Sms => [View, Edit, Transfer, Sync, Delete]
    case Documents => [View, Create, Edit, Delete, Share]
    case Broadcast => [View, Send]
    case Users => [View, Create, Edit, Delete, AssignAny]
    case OtherPage(_) => []
    case _ => [View, Create, Edit, Delete]
  }

  /** The catalog of today. The results below hold for every catalog. */
  const CURRENT := Catalog([Dashboard, Servers, AiKeys, Proxies, Backends, BackendUsers, BackendEconomics,
                            Mail, Sms, Roles, Teams, Documents, Broadcast, Users], CurrentActions)

  // ---------------------------------------------------------------- ordered dictionaries

  lemma {:induction false} DistinctPrefix<T>(s: seq<T>, j: nat)
    requires Distinct(s) && j < |s|
    ensures s[j] !in s[..j] && Distinct(s[..j])
  {
    if j < |s| - 1 {
      DistinctPrefix(s[..|s| - 1], j);
      assert s[..|s| - 1][..j] == s[..j];
    }
  }

  lemma DistinctSnoc<T>(s: seq<T>, x: T)
    ensures Distinct(s + [x]) <==> Distinct(s) && x !in s
  {
    assert (s + [x])[..|s|] == s;
  }

  function KeySet(s: seq<Page>): set<Page> {
    if s == [] then {} else KeySet(s[..|s| - 1]) + {s[|s| - 1]}
  }

  lemma {:induction false} KeySetMembers(s: seq<Page>)
    ensures forall p :: p in KeySet(s) <==> p in s
  {
    if s != [] {
      KeySetMembers(s[..|s| - 1]);
      assert s == s[..|s| - 1] + [s[|s| - 1]];
    }
  }

  lemma KeySetSnoc(s: seq<Page>, p: Page)
    ensures KeySet(s + [p]) == KeySet(s) + {p}
  {
    assert (s + [p])[..|s|] == s;
  }

  /** A dictionary that remembers the order in which its keys came. */
  datatype Dict<V> = Dict(keys: seq<Page>, at: map<Page, V>) {
    ghost predicate Valid() { Distinct(keys) && KeySet(keys) == at.Keys }

    lemma KeysAreAt()
      requires Valid()
      ensures forall p :: p in keys <==> p in at
    {
      KeySetMembers(keys);
    }

    function Put(p: Page, v: V): (d: Dict<V>)
      requires Valid()
      ensures d.Valid() && d.at == at[p := v]
    {
      KeysAreAt();
      DistinctSnoc(keys, p);
      KeySetSnoc(keys, p);
      Dict(if p in at then keys else keys + [p], at[p := v])
    }
  }

  type Perms = Dict<seq<Action>>

  function Get(d: Perms, p: Page): seq<Action> { if p in d.at then d.at[p] else [] }

  // ---------------------------------------------------------------- sequences as sets

  /** `d` with the elements of `xs` that it lacks appended in order. */
  function AddNew<T(==)>(d: seq<T>, xs: seq<T>): seq<T>
    decreases |xs|
  {
    if xs == [] then d
    else
      var r := AddNew(d, xs[..|xs| - 1]);
      if xs[|xs| - 1] in r then r else r + [xs[|xs| - 1]]
  }

  lemma {:induction false} AddNewMembers<T(!new)>(d: seq<T>, xs: seq<T>)
    ensures forall x :: x in AddNew(d, xs) <==> x in d || x in xs
    ensures Distinct(d) ==> Distinct(AddNew(d, xs))
    decreases |xs|
  {
    if xs != [] {
      var r := AddNew(d, xs[..|xs| - 1]);
      AddNewMembers(d, xs[..|xs| - 1]);
      DistinctSnoc(r, xs[|xs| - 1]);
      assert xs == xs[..|xs| - 1] + [xs[|xs| - 1]];
    }
  }

  lemma AddNewMember<T(!new)>(d: seq<T>, xs: seq<T>, x: T)
    ensures x in AddNew(d, xs) <==> x in d || x in xs
  {
    AddNewMembers(d, xs);
  }

  /** The elements of `s` that are (or are not) in `other`, in the order of `s`. */
  function Keep<T(==)>(s: seq<T>, other: seq<T>, inside: bool): seq<T> {
    if s == [] then []
    else
      var r := Keep(s[..|s| - 1], other, inside);
      if (s[|s| - 1] in other) == inside then r + [s[|s| - 1]] else r
  }

  lemma {:induction false} KeepMembers<T(!new)>(s: seq<T>, other: seq<T>, inside: bool)
    ensures forall x :: x in Keep(s, other, inside) <==> x in s && (x in other) == inside
    ensures Distinct(s) ==> Distinct(Keep(s, other, inside))
  {
    if s != [] {
      var r := Keep(s[..|s| - 1], other, inside);
      KeepMembers(s[..|s| - 1], other, inside);
      DistinctSnoc(r, s[|s| - 1]);
      assert s == s[..|s| - 1] + [s[|s| - 1]];
    }
  }

  lemma KeepSnoc<T(!new)>(s: seq<T>, x: T, other: seq<T>, inside: bool)
    ensures Keep(s + [x], other, inside) ==
      if (x in other) == inside then Keep(s, other, inside) + [x] else Keep(s, other, inside)
  {
    assert (s + [x])[..|s|] == s;
  }

  lemma {:induction false} KeepDependsOnMembers<T(!new)>(s: seq<T>, a: seq<T>, b: seq<T>, inside: bool)
    requires forall x | x in s :: x in a <==> x in b
    ensures Keep(s, a, inside) == Keep(s, b, inside)
  {
    if s != [] {
      assert s[|s| - 1] in s;
      KeepDependsOnMembers(s[..|s| - 1], a, b, inside);
    }
  }

  lemma {:induction false} KeepAll<T(!new)>(s: seq<T>, other: seq<T>, inside: bool)
    ensures (forall x | x in s :: (x in other) == inside) ==> Keep(s, other, inside) == s
    ensures (forall x | x in s :: (x in other) != inside) ==> Keep(s, other, inside) == []
  {
    if s != [] {
      assert s == s[..|s| - 1] + [s[|s| - 1]];
      KeepAll(s[..|s| - 1], other, inside);
    }
  }

  // ---------------------------------------------------------------- the union

  /** `d` after the first `n` entries of a source: every page gets a bucket, every new
      action goes to its end. */
  function Merge(d: Perms, src: Perms, n: nat): (r: Perms)
    requires d.Valid() && src.Valid() && n <= |src.keys|
    ensures r.Valid()
  {
    if n == 0 then d
    else
      src.KeysAreAt();
      var m := Merge(d, src, n - 1);
      var p := src.keys[n - 1];
      m.Put(p, AddNew(Get(m, p), src.at[p]))
  }

  ghost predicate AllValid(sources: seq<Perms>) { forall s | s in sources :: s.Valid() }

  function Collected(sources: seq<Perms>): (r: Perms)
    requires AllValid(sources)
    ensures r.Valid()
  {
    if sources == [] then Dict([], map[])
    else
      var last := sources[|sources| - 1];
      Merge(Collected(sources[..|sources| - 1]), last, |last.keys|)
  }

  /** Catalog actions in catalog order, then the others as they come. */
  function OrderActions(cat: Catalog, p: Page, actions: seq<Action>): seq<Action> {
    Keep(cat.actions(p), actions, true) + Keep(actions, cat.actions(p), false)
  }

  /** The first `n` catalog pages, as far as they were collected. */
  function Known(cat: Catalog, c: Perms, n: nat): (r: Perms)
    requires c.Valid() && n <= |cat.pages|
    ensures r.Valid()
  {
    if n == 0 then Dict([], map[])
    else
      var r := Known(cat, c, n - 1);
      var p := cat.pages[n - 1];
      if p in c.at then r.Put(p, OrderActions(cat, p, c.at[p])) else r
  }

  /** Then the first `n` collected pages, as far as they are missing. */
  function Rest(cat: Catalog, c: Perms, start: Perms, n: nat): (r: Perms)
    requires c.Valid() && start.Valid() && n <= |c.keys|
    ensures r.Valid()
  {
    if n == 0 then start
    else
      c.KeysAreAt();
      var r := Rest(cat, c, start, n - 1);
      var p := c.keys[n - 1];
      if p in r.at then r else r.Put(p, OrderActions(cat, p, c.at[p]))
  }

  function Union(cat: Catalog, sources: seq<Perms>): (u: Perms)
    requires AllValid(sources)
    ensures u.Valid()
  {
    var c := Collected(sources);
    Rest(cat, c, Known(cat, c, |cat.pages|), |c.keys|)
  }

  method UnionPermissions(cat: Catalog, sources: seq<Perms>) returns (ordered: Perms)
    requires AllValid(sources)
    ensures ordered == Union(cat, sources)
  {
    var collected := Collect(sources);
    ordered := Dict([], map[]);
    for i := 0 to |cat.pages|
      invariant ordered == Known(cat, collected, i)
    {
      var page := cat.pages[i];
      if page in collected.at { ordered := ordered.Put(page, OrderActions(cat, page, collected.at[page])); }
    }
    ordered := AddRest(cat, collected, ordered);
  }

  method AddRest(cat: Catalog, collected: Perms, start: Perms) returns (ordered: Perms)
    requires collected.Valid() && start.Valid()
    ensures ordered == Rest(cat, collected, start, |collected.keys|)
  {
    ordered := start;
    collected.KeysAreAt();
    for i := 0 to |collected.keys|
      invariant ordered == Rest(cat, collected, start, i)
    {
      var page := collected.keys[i];
      if page !in ordered.at { ordered := ordered.Put(page, OrderActions(cat, page, collected.at[page])); }
    }
  }

  method Collect(sources: seq<Perms>) returns (collected: Perms)
    requires AllValid(sources)
    ensures collected == Collected(sources)
  {
    collected := Dict([], map[]);
    for i := 0 to |sources|
      invariant collected == Collected(sources[..i])
    {
      var src := sources[i];
      src.KeysAreAt();
      assert sources[..i + 1][..i] == sources[..i];
      for j := 0 to |src.keys|
        invariant collected == Merge(Collected(sources[..i]), src, j)
      {
        var page := src.keys[j];
        var bucket := Extend(Get(collected, page), src.at[page]);
        collected := collected.Put(page, bucket);
      }
    }
    assert sources[..|sources|] == sources;
  }

  method Extend(start: seq<Action>, actions: seq<Action>) returns (bucket: seq<Action>)
    ensures bucket == AddNew(start, actions)
  {
    bucket := start;
    for k := 0 to |actions|
      invariant bucket == AddNew(start, actions[..k])
    {
      assert actions[..k + 1][..k] == actions[..k];
      if actions[k] !in bucket { bucket := bucket + [actions[k]]; }
    }
    assert actions[..|actions|] == actions;
  }

  // ---------------------------------------------------------------- subset and validity

  /** `permissions_subset` */
  predicate Subset(child: Perms, parent: Perms) {
    forall p | p in child.at :: forall a | a in child.at[p] :: a in Get(parent, p)
  }

  function FullCatalog(cat: Catalog): Perms { Dict(cat.pages, map p | p in cat.pages :: cat.actions(p)) }

  ghost predicate CatalogValid(cat: Catalog, d: Perms) {
    d.Valid() && forall p | p in d.at :: p in cat.pages && PageValid(cat, p, d.at[p])
  }

  ghost predicate PageValid(cat: Catalog, p: Page, actions: seq<Action>) {
    Distinct(actions) && forall a | a in actions :: a in cat.actions(p)
  }

  datatype Violation =
    | UnknownPage(page: Page)
    | BadAction(page: Page, action: Action)
    | DuplicateAction(page: Page, action: Action)

  /** What the first offence of a dictionary is. */
  ghost predicate Offends(cat: Catalog, d: Perms, v: Violation)
    requires d.Valid()
  {
    exists i | 0 <= i < |d.keys| ::
      && d.keys[i] == v.page
      && (forall j | 0 <= j < i :: d.keys[j] in cat.pages && PageValid(cat, d.keys[j], Get(d, d.keys[j])))
      && match v
         case UnknownPage(p) => p !in cat.pages
         case BadAction(p, a) => p in cat.pages && exists k | 0 <= k < |Get(d, p)| ::
             Get(d, p)[k] == a && a !in cat.actions(p) && PageValid(cat, p, Get(d, p)[..k])
         case DuplicateAction(p, a) => p in cat.pages && exists k | 0 <= k < |Get(d, p)| ::
             Get(d, p)[k] == a && a in cat.actions(p) && a in Get(d, p)[..k] && PageValid(cat, p, Get(d, p)[..k])
  }

  method ValidatePermissions(cat: Catalog, d: Perms) returns (r: Result<(), Violation>)
    requires cat.Valid() && d.Valid()
    ensures r.Ok? <==> CatalogValid(cat, d)
    ensures r.Err? ==> Offends(cat, d, r.error)
  {
    d.KeysAreAt();
    for i := 0 to |d.keys|
      invariant forall j | 0 <= j < i :: d.keys[j] in cat.pages && PageValid(cat, d.keys[j], Get(d, d.keys[j]))
    {
      var page := d.keys[i];
      var allowed := cat.actions(page);
      if allowed == [] { return Err(UnknownPage(page)); }
      var bad := FirstBad(cat, page, Get(d, page));
      if bad.Some? {
        return Err(if Get(d, page)[bad.value] !in allowed then BadAction(page, Get(d, page)[bad.value])
                   else DuplicateAction(page, Get(d, page)[bad.value]));
      }
    }
    r := Ok(());
  }

  method FirstBad(cat: Catalog, page: Page, actions: seq<Action>) returns (k: Option<nat>)
    ensures k.None? <==> PageValid(cat, page, actions)
    ensures k.Some? ==> k.value < |actions| && PageValid(cat, page, actions[..k.value])
    ensures k.Some? ==> actions[k.value] !in cat.actions(page) || actions[k.value] in actions[..k.value]
  {
    var seen: set<Action> := {};
    for i := 0 to |actions|
      invariant PageValid(cat, page, actions[..i])
      invariant forall a :: a in seen <==> a in actions[..i]
    {
      if actions[i] !in cat.actions(page) || actions[i] in seen {
        if Distinct(actions) { DistinctPrefix(actions, i); }
        assert actions[i] in actions;
        return Some(i);
      }
      seen := seen + {actions[i]};
      DistinctSnoc(actions[..i], actions[i]);
      assert actions[..i + 1] == actions[..i] + [actions[i]];
    }
    assert actions[..|actions|] == actions;
    k := None;
  }

  // ---------------------------------------------------------------- the lattice

  lemma PutMembers(d: Perms, q: Page, xs: seq<Action>, p: Page, a: Action)
    requires d.Valid()
    ensures var r := d.Put(q, AddNew(Get(d, q), xs));
      && (p in r.at <==> p in d.at || p == q)
      && (a in Get(r, p) <==> a in Get(d, p) || (p == q && a in xs))
  {
    AddNewMember(Get(d, q), xs, a);
  }

  lemma PrefixSnoc(s: seq<Page>, n: nat, p: Page)
    requires 0 < n <= |s|
    ensures p in s[..n] <==> p in s[..n - 1] || p == s[n - 1]
  {
    assert s[..n] == s[..n - 1] + [s[n - 1]];
  }

  lemma {:induction false} MergeMembers(d: Perms, src: Perms, n: nat, p: Page, a: Action)
    requires d.Valid() && src.Valid() && n <= |src.keys|
    ensures p in Merge(d, src, n).at <==> p in d.at || p in src.keys[..n]
    ensures a in Get(Merge(d, src, n), p) <==> a in Get(d, p) || (p in src.keys[..n] && a in Get(src, p))
  {
    if n > 0 {
      var q := src.keys[n - 1];
      src.KeysAreAt();
      var m := Merge(d, src, n - 1);
      MergeMembers(d, src, n - 1, p, a);
      PutMembers(m, q, src.at[q], p, a);
      assert Merge(d, src, n) == m.Put(q, AddNew(Get(m, q), src.at[q]));
      PrefixSnoc(src.keys, n, p);
    }
  }

  lemma MergeAllMembers(d: Perms, src: Perms, p: Page, a: Action)
    requires d.Valid() && src.Valid()
    ensures var r := Merge(d, src, |src.keys|);
      && (p in r.at <==> p in d.at || p in src.at)
      && (a in Get(r, p) <==> a in Get(d, p) || a in Get(src, p))
  {
    MergeMembers(d, src, |src.keys|, p, a);
    src.KeysAreAt();
    assert src.keys[..|src.keys|] == src.keys;
  }

  /** Some source has the page; some source grants the action. */
  predicate SomeHas(sources: seq<Perms>, p: Page) {
    sources != [] && (p in sources[|sources| - 1].at || SomeHas(sources[..|sources| - 1], p))
  }

  predicate SomeGrants(sources: seq<Perms>, p: Page, a: Action) {
    sources != [] && (a in Get(sources[|sources| - 1], p) || SomeGrants(sources[..|sources| - 1], p, a))
  }

  lemma {:induction false} SomeHasIff(sources: seq<Perms>, p: Page)
    ensures SomeHas(sources, p) <==> exists i | 0 <= i < |sources| :: p in sources[i].at
  {
    if sources != [] { SomeHasIff(sources[..|sources| - 1], p); }
  }

  lemma {:induction false} SomeGrantsIff(sources: seq<Perms>, p: Page, a: Action)
    ensures SomeGrants(sources, p, a) <==> exists i | 0 <= i < |sources| :: a in Get(sources[i], p)
  {
    if sources != [] { SomeGrantsIff(sources[..|sources| - 1], p, a); }
  }

  lemma {:induction false} CollectedMembers(sources: seq<Perms>, p: Page, a: Action)
    requires AllValid(sources)
    ensures p in Collected(sources).at <==> SomeHas(sources, p)
    ensures a in Get(Collected(sources), p) <==> SomeGrants(sources, p, a)
  {
    if sources != [] {
      var init, last := sources[..|sources| - 1], sources[|sources| - 1];
      CollectedMembers(init, p, a);
      MergeAllMembers(Collected(init), last, p, a);
    }
  }

  lemma {:induction false} KnownAt(cat: Catalog, c: Perms, n: nat, p: Page)
    requires c.Valid() && n <= |cat.pages|
    ensures p in Known(cat, c, n).at <==> p in cat.pages[..n] && p in c.at
    ensures p in Known(cat, c, n).at ==> Known(cat, c, n).at[p] == OrderActions(cat, p, c.at[p])
  {
    if n > 0 {
      KnownAt(cat, c, n - 1, p);
      PrefixSnoc(cat.pages, n, p);
    }
  }

  lemma {:induction false} RestAt(cat: Catalog, c: Perms, start: Perms, n: nat, p: Page)
    requires c.Valid() && start.Valid() && n <= |c.keys|
    ensures p in Rest(cat, c, start, n).at <==> p in start.at || p in c.keys[..n]
    ensures p in start.at ==> Rest(cat, c, start, n).at[p] == start.at[p]
    ensures p in Rest(cat, c, start, n).at && p !in start.at ==>
      Rest(cat, c, start, n).at[p] == OrderActions(cat, p, Get(c, p))
  {
    if n > 0 {
      c.KeysAreAt();
      RestAt(cat, c, start, n - 1, p);
      PrefixSnoc(c.keys, n, p);
    }
  }

  lemma UnionAt(cat: Catalog, sources: seq<Perms>, p: Page)
    requires AllValid(sources)
    ensures var c := Collected(sources);
      && (p in Union(cat, sources).at <==> p in c.at)
      && (p in c.at ==> Union(cat, sources).at[p] == OrderActions(cat, p, c.at[p]))
  {
    var c := Collected(sources);
    KnownAt(cat, c, |cat.pages|, p);
    RestAt(cat, c, Known(cat, c, |cat.pages|), |c.keys|, p);
    c.KeysAreAt();
    assert c.keys[..|c.keys|] == c.keys && cat.pages[..|cat.pages|] == cat.pages;
  }

  lemma OrderActionsMembers(cat: Catalog, p: Page, actions: seq<Action>)
    ensures forall a :: a in OrderActions(cat, p, actions) <==> a in actions
  {
    KeepMembers(cat.actions(p), actions, true);
    KeepMembers(actions, cat.actions(p), false);
  }

  /** An action is granted by the union exactly when some source grants it. */
  lemma UnionGrants(cat: Catalog, sources: seq<Perms>, p: Page, a: Action)
    requires AllValid(sources)
    ensures p in Union(cat, sources).at <==> SomeHas(sources, p)
    ensures a in Get(Union(cat, sources), p) <==> SomeGrants(sources, p, a)
  {
    CollectedMembers(sources, p, a);
    UnionAt(cat, sources, p);
    OrderActionsMembers(cat, p, Get(Collected(sources), p));
  }

  /** The union is the least upper bound of its sources under the subset relation. */
  lemma UnionIsLeastUpperBound(cat: Catalog, sources: seq<Perms>, parent: Perms)
    requires AllValid(sources)
    ensures Subset(Union(cat, sources), parent) <==> forall i | 0 <= i < |sources| :: Subset(sources[i], parent)
    ensures forall i | 0 <= i < |sources| :: Subset(sources[i], Union(cat, sources))
  {
    var u := Union(cat, sources);
    forall i | 0 <= i < |sources|
      ensures Subset(sources[i], u)
      ensures Subset(u, parent) ==> Subset(sources[i], parent)
    {
      forall p, a | p in sources[i].at && a in sources[i].at[p] ensures a in Get(u, p) {
        assert a in Get(sources[i], p);
        SomeGrantsIff(sources, p, a);
        UnionGrants(cat, sources, p, a);
      }
    }
    if forall i | 0 <= i < |sources| :: Subset(sources[i], parent) {
      forall p, a | p in u.at && a in u.at[p] ensures a in Get(parent, p) {
        UnionGrants(cat, sources, p, a);
        SomeGrantsIff(sources, p, a);
        var i :| 0 <= i < |sources| && a in Get(sources[i], p);
        assert Subset(sources[i], parent);
      }
    }
  }

  ghost predicate SameSources(a: seq<Perms>, b: seq<Perms>) { forall s :: s in a <==> s in b }

  ghost predicate AllCatalogValid(cat: Catalog, sources: seq<Perms>) { forall s | s in sources :: CatalogValid(cat, s) }

  lemma CollectedIsValid(cat: Catalog, sources: seq<Perms>, p: Page, a: Action)
    requires AllCatalogValid(cat, sources) && p in Collected(sources).at
    ensures p in cat.pages
    ensures a in Collected(sources).at[p] ==> a in cat.actions(p)
  {
    CollectedMembers(sources, p, a);
    SomeHasIff(sources, p);
    SomeGrantsIff(sources, p, a);
    forall i | 0 <= i < |sources| ensures CatalogValid(cat, sources[i]) { assert sources[i] in sources; }
  }

  lemma {:induction false} KnownKeys(cat: Catalog, c: Perms, n: nat)
    requires cat.Valid() && c.Valid() && n <= |cat.pages|
    ensures Known(cat, c, n).keys == Keep(cat.pages[..n], c.keys, true)
  {
    if n > 0 {
      var p := cat.pages[n - 1];
      KnownKeys(cat, c, n - 1);
      KnownAt(cat, c, n - 1, p);
      c.KeysAreAt();
      DistinctPrefix(cat.pages, n - 1);
      KeepSnoc(cat.pages[..n - 1], p, c.keys, true);
      assert cat.pages[..n] == cat.pages[..n - 1] + [p];
    }
  }

  lemma {:induction false} NothingLeft(cat: Catalog, c: Perms, start: Perms, n: nat)
    requires c.Valid() && start.Valid() && n <= |c.keys| && forall p | p in c.at :: p in start.at
    ensures Rest(cat, c, start, n) == start
  {
    if n > 0 {
      NothingLeft(cat, c, start, n - 1);
      c.KeysAreAt();
    }
  }

  /** On catalog-valid sources the union is in catalog order throughout. */
  lemma UnionOfValid(cat: Catalog, sources: seq<Perms>)
    requires cat.Valid() && AllCatalogValid(cat, sources)
    ensures Union(cat, sources).keys == Keep(cat.pages, Collected(sources).keys, true)
    ensures Union(cat, sources).at.Keys == Collected(sources).at.Keys
  {
    var c, n := Collected(sources), |cat.pages|;
    assert cat.pages[..n] == cat.pages;
    KnownKeys(cat, c, n);
    forall p | p in c.at ensures p in Known(cat, c, n).at {
      CollectedIsValid(cat, sources, p, View);
      KnownAt(cat, c, n, p);
    }
    NothingLeft(cat, c, Known(cat, c, n), |c.keys|);
    forall p ensures p in Union(cat, sources).at <==> p in c.at { UnionAt(cat, sources, p); }
  }

  lemma UnionOfValidAt(cat: Catalog, sources: seq<Perms>, p: Page)
    requires cat.Valid() && AllCatalogValid(cat, sources) && p in Collected(sources).at
    ensures p in Union(cat, sources).at
    ensures Union(cat, sources).at[p] == Keep(cat.actions(p), Collected(sources).at[p], true)
  {
    var actions := Collected(sources).at[p];
    UnionAt(cat, sources, p);
    forall a | a in actions ensures a in cat.actions(p) { CollectedIsValid(cat, sources, p, a); }
    KeepAll(actions, cat.actions(p), false);
  }

  /** Two lists of valid roles that grant the same have the same union, order included. */
  lemma UnionIsByGrants(cat: Catalog, a: seq<Perms>, b: seq<Perms>)
    requires cat.Valid() && AllCatalogValid(cat, a) && AllCatalogValid(cat, b)
    requires forall p :: SomeHas(a, p) <==> SomeHas(b, p)
    requires forall p, x :: SomeGrants(a, p, x) <==> SomeGrants(b, p, x)
    ensures Union(cat, a) == Union(cat, b)
  {
    var c, d := Collected(a), Collected(b);
    UnionOfValid(cat, a);
    UnionOfValid(cat, b);
    forall p ensures p in c.at <==> p in d.at {
      CollectedMembers(a, p, View);
      CollectedMembers(b, p, View);
    }
    c.KeysAreAt();
    d.KeysAreAt();
    KeepDependsOnMembers(cat.pages, c.keys, d.keys, true);
    forall p | p in c.at ensures Union(cat, a).at[p] == Union(cat, b).at[p] {
      UnionOfValidAt(cat, a, p);
      UnionOfValidAt(cat, b, p);
      forall x ensures x in c.at[p] <==> x in d.at[p] {
        CollectedMembers(a, p, x);
        CollectedMembers(b, p, x);
      }
      KeepDependsOnMembers(cat.actions(p), c.at[p], d.at[p], true);
    }
  }

  /** Permuting or repeating catalog-valid roles leaves the union unchanged, order included. */
  lemma UnionIgnoresOrder(cat: Catalog, a: seq<Perms>, b: seq<Perms>)
    requires cat.Valid() && AllCatalogValid(cat, a) && AllCatalogValid(cat, b) && SameSources(a, b)
    ensures Union(cat, a) == Union(cat, b)
  {
    forall p ensures SomeHas(a, p) <==> SomeHas(b, p) { SameSomeHas(a, b, p); }
    forall p, x ensures SomeGrants(a, p, x) <==> SomeGrants(b, p, x) { SameSomeGrants(a, b, p, x); }
    UnionIsByGrants(cat, a, b);
  }

  lemma SameSomeHas(a: seq<Perms>, b: seq<Perms>, p: Page)
    requires SameSources(a, b)
    ensures SomeHas(a, p) <==> SomeHas(b, p)
  {
    SomeHasIff(a, p);
    SomeHasIff(b, p);
    if i :| 0 <= i < |a| && p in a[i].at { assert a[i] in b; }
    if i :| 0 <= i < |b| && p in b[i].at { assert b[i] in a; }
  }

  lemma SameSomeGrants(a: seq<Perms>, b: seq<Perms>, p: Page, x: Action)
    requires SameSources(a, b)
    ensures SomeGrants(a, p, x) <==> SomeGrants(b, p, x)
  {
    SomeGrantsIff(a, p, x);
    SomeGrantsIff(b, p, x);
    if i :| 0 <= i < |a| && x in Get(a[i], p) { assert a[i] in b; }
    if i :| 0 <= i < |b| && x in Get(b[i], p) { assert b[i] in a; }
  }

  lemma UnionIsValid(cat: Catalog, sources: seq<Perms>)
    requires cat.Valid() && AllCatalogValid(cat, sources)
    ensures CatalogValid(cat, Union(cat, sources))
  {
    var u := Union(cat, sources);
    UnionOfValid(cat, sources);
    forall p | p in u.at ensures p in cat.pages && PageValid(cat, p, u.at[p]) {
      CollectedIsValid(cat, sources, p, View);
      UnionOfValidAt(cat, sources, p);
      KeepMembers(cat.actions(p), Collected(sources).at[p], true);
    }
  }

  /** The union of catalog-valid roles is catalog-valid, and taking it again changes nothing. */
  lemma UnionIsIdempotent(cat: Catalog, sources: seq<Perms>)
    requires cat.Valid() && AllCatalogValid(cat, sources)
    ensures CatalogValid(cat, Union(cat, sources)) && Union(cat, [Union(cat, sources)]) == Union(cat, sources)
  {
    var u := Union(cat, sources);
    UnionIsValid(cat, sources);
    assert [u][..0] == [];
    forall p ensures SomeHas([u], p) <==> SomeHas(sources, p) { UnionGrants(cat, sources, p, View); }
    forall p, x ensures SomeGrants([u], p, x) <==> SomeGrants(sources, p, x) { UnionGrants(cat, sources, p, x); }
    UnionIsByGrants(cat, [u], sources);
  }

  // ---------------------------------------------------------------- what the union is

  /** The union in terms of the entries of its sources. */
  lemma UnionIs(cat: Catalog, sources: seq<Perms>, p: Page, a: Action)
    requires AllValid(sources)
    ensures p in Union(cat, sources).at <==> exists i | 0 <= i < |sources| :: p in sources[i].at
    ensures p in Union(cat, sources).at ==>
      (a in Union(cat, sources).at[p] <==> exists i | 0 <= i < |sources| :: p in sources[i].at && a in sources[i].at[p])
  {
    UnionGrants(cat, sources, p, a);
    SomeHasIff(sources, p);
    SomeGrantsIff(sources, p, a);
    if i :| 0 <= i < |sources| && a in Get(sources[i], p) { assert p in sources[i].at; }
  }

  // ---------------------------------------------------------------- admin level

  datatype Role = Role(name: string, permissions: Perms)

  const ADMIN := "admin"

  function PermsOf(roles: seq<Role>): (s: seq<Perms>)
    ensures |s| == |roles| && forall i | 0 <= i < |s| :: s[i] == roles[i].permissions
  {
    seq(|roles|, i requires 0 <= i < |roles| => roles[i].permissions)
  }

  /** The super-administrator, a role named `admin`, or the whole catalog by union. */
  predicate IsAdminLevel(cat: Catalog, superadmin: bool, roles: seq<Role>)
    requires AllValid(PermsOf(roles))
  {
    || superadmin
    || (exists i | 0 <= i < |roles| :: roles[i].name == ADMIN)
    || Subset(FullCatalog(cat), Union(cat, PermsOf(roles)))
  }

  lemma CoverageIsByGrants(cat: Catalog, sources: seq<Perms>)
    requires AllValid(sources)
    ensures Subset(FullCatalog(cat), Union(cat, sources))
       <==> forall p, a | p in cat.pages && a in cat.actions(p) :: SomeGrants(sources, p, a)
  {
    forall p, a ensures a in Get(Union(cat, sources), p) <==> SomeGrants(sources, p, a) {
      UnionGrants(cat, sources, p, a);
    }
    assert forall p :: p in FullCatalog(cat).at <==> p in cat.pages;
  }

  /** The admin level in terms of names and entries. */
  lemma AdminLevelIff(cat: Catalog, superadmin: bool, roles: seq<Role>)
    requires AllValid(PermsOf(roles))
    ensures IsAdminLevel(cat, superadmin, roles) <==>
      || superadmin
      || (exists i | 0 <= i < |roles| :: roles[i].name == "admin")
      || (forall p, a | p in cat.pages && a in cat.actions(p) ::
            exists i | 0 <= i < |roles| :: p in roles[i].permissions.at && a in roles[i].permissions.at[p])
  {
    var sources := PermsOf(roles);
    CoverageIsByGrants(cat, sources);
    forall p, a
      ensures SomeGrants(sources, p, a) <==>
        exists i | 0 <= i < |roles| :: p in roles[i].permissions.at && a in roles[i].permissions.at[p]
    {
      GrantingRole(roles, p, a);
    }
  }

  lemma GrantingRole(roles: seq<Role>, p: Page, a: Action)
    ensures SomeGrants(PermsOf(roles), p, a) <==>
      exists i | 0 <= i < |roles| :: p in roles[i].permissions.at && a in roles[i].permissions.at[p]
  {
    var sources := PermsOf(roles);
    SomeGrantsIff(sources, p, a);
    if i :| 0 <= i < |sources| && a in Get(sources[i], p) {
      assert p in roles[i].permissions.at && a in roles[i].permissions.at[p];
    }
    if i :| 0 <= i < |roles| && p in roles[i].permissions.at && a in roles[i].permissions.at[p] {
      assert a in Get(sources[i], p);
    }
  }

  lemma InsertKeepsGrants(sources: seq<Perms>, more: seq<Perms>, k: nat, extra: Perms, p: Page, a: Action)
    requires k <= |sources| && more == sources[..k] + [extra] + sources[k..]
    requires SomeGrants(sources, p, a)
    ensures SomeGrants(more, p, a)
  {
    SomeGrantsIff(sources, p, a);
    var i :| 0 <= i < |sources| && a in Get(sources[i], p);
    var j := Inserted(sources, more, k, extra, i);
    SomeGrantsIff(more, p, a);
  }

  lemma Inserted(sources: seq<Perms>, more: seq<Perms>, k: nat, extra: Perms, i: nat) returns (j: nat)
    requires k <= |sources| && more == sources[..k] + [extra] + sources[k..] && i < |sources|
    ensures j < |more| && more[j] == sources[i]
  {
    j := if i < k then i else i + 1;
  }

  lemma InsertKeepsCoverage(cat: Catalog, sources: seq<Perms>, more: seq<Perms>, k: nat, extra: Perms)
    requires k <= |sources| && more == sources[..k] + [extra] + sources[k..]
    requires AllValid(sources) && AllValid(more)
    requires Subset(FullCatalog(cat), Union(cat, sources))
    ensures Subset(FullCatalog(cat), Union(cat, more))
  {
    CoverageIsByGrants(cat, sources);
    CoverageIsByGrants(cat, more);
    forall p, a | SomeGrants(sources, p, a) ensures SomeGrants(more, p, a) {
      InsertKeepsGrants(sources, more, k, extra, p, a);
    }
  }

  /** A role added anywhere never takes the admin level away. */
  lemma AdminLevelIsMonotone(cat: Catalog, superadmin: bool, roles: seq<Role>, k: nat, extra: Role)
    requires k <= |roles| && AllValid(PermsOf(roles)) && extra.permissions.Valid()
    requires IsAdminLevel(cat, superadmin, roles)
    ensures AllValid(PermsOf(roles[..k] + [extra] + roles[k..]))
    ensures IsAdminLevel(cat, superadmin, roles[..k] + [extra] + roles[k..])
  {
    var more := roles[..k] + [extra] + roles[k..];
    PermsOfMore(roles, k, extra);
    if i :| 0 <= i < |roles| && roles[i].name == ADMIN {
      assert more[if i < k then i else i + 1] == roles[i];
    } else if !superadmin {
      InsertKeepsCoverage(cat, PermsOf(roles), PermsOf(more), k, extra.permissions);
    }
  }

  lemma PermsOfMore(roles: seq<Role>, k: nat, extra: Role)
    requires k <= |roles| && AllValid(PermsOf(roles)) && extra.permissions.Valid()
    ensures var more := PermsOf(roles[..k] + [extra] + roles[k..]);
      more == PermsOf(roles)[..k] + [extra.permissions] + PermsOf(roles)[k..] && AllValid(more)
  {
    var more := PermsOf(roles[..k] + [extra] + roles[k..]);
    assert more == PermsOf(roles)[..k] + [extra.permissions] + PermsOf(roles)[k..];
    forall i | 0 <= i < |more| ensures more[i].Valid() {
      if i < k { assert PermsOf(roles)[i] in PermsOf(roles); }
      if i > k { assert PermsOf(roles)[i - 1] in PermsOf(roles); }
    }
  }
}

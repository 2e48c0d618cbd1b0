/** The order in which the union lists pages and actions. */
module PermissionOrder {
  import opened Prelude
  import opened Permissions

  /** Every page, every action of a page, from the first source to the last. */
  function AllKeys(sources: seq<Perms>): seq<Page> {
    if sources == [] then [] else AllKeys(sources[..|sources| - 1]) + sources[|sources| - 1].keys
  }

  function AllActions(sources: seq<Perms>, p: Page): seq<Action> {
    if sources == [] then []
    else AllActions(sources[..|sources| - 1], p) + Get(sources[|sources| - 1], p)
  }

  ghost predicate InOrder<T(!new)>(s: seq<T>, x: T, y: T) {
    exists i, j | 0 <= i < |s| && 0 <= j < |s| :: i < j && s[i] == x && s[j] == y
  }

  /** `x` is met before `y` is. */
  ghost predicate MetFirst<T(!new)>(s: seq<T>, x: T, y: T) {
    exists k | 0 <= k < |s| :: s[k] == x && y !in s[..k] && x != y
  }

  /** First what is known, in its own order, and then the rest as it was met. */
  ghost predicate KnownFirst<T(!new)>(known: seq<T>, met: seq<T>, x: T, y: T) {
    if x in known then y !in known || InOrder(known, x, y)
    else y !in known && MetFirst(met, x, y)
  }

  ghost predicate IsOrdered<T(!new)>(s: seq<T>, known: seq<T>, met: seq<T>) {
    forall i, j | 0 <= i < |s| && 0 <= j < |s| :: i < j ==> KnownFirst(known, met, s[i], s[j])
  }

  lemma {:induction false} AddNewIsAppended<T>(d: seq<T>, a: seq<T>, b: seq<T>)
    ensures AddNew(AddNew(d, a), b) == AddNew(d, a + b)
    decreases |b|
  {
    if b == [] {
      assert a + b == a;
    } else {
      AddNewIsAppended(d, a, b[..|b| - 1]);
      assert (a + b)[..|a + b| - 1] == a + b[..|b| - 1];
    }
  }

  lemma {:induction false} AddNewMetFirst<T(!new)>(xs: seq<T>, i: nat, j: nat)
    requires i < j < |AddNew([], xs)|
    ensures MetFirst(xs, AddNew([], xs)[i], AddNew([], xs)[j])
  {
    var init, x := xs[..|xs| - 1], xs[|xs| - 1];
    var r, m := AddNew([], init), AddNew([], xs);
    AddNewMembers([], init);
    if j < |r| {
      AddNewMetFirst(init, i, j);
      var k :| 0 <= k < |init| && init[k] == m[i] && m[j] !in init[..k] && m[i] != m[j];
      assert xs[..k] == init[..k];
    } else {
      assert m[i] == r[i] && r[i] in r && r[i] in init;
      var k :| 0 <= k < |init| && init[k] == r[i];
      assert x !in init;
      assert xs[..k] == init[..k];
    }
  }

  lemma {:induction false} KeepInOrder<T(!new)>(s: seq<T>, other: seq<T>, inside: bool, i: nat, j: nat)
    requires i < j < |Keep(s, other, inside)|
    ensures InOrder(s, Keep(s, other, inside)[i], Keep(s, other, inside)[j])
  {
    var init, k := s[..|s| - 1], Keep(s, other, inside);
    var r := Keep(init, other, inside);
    if j < |r| {
      KeepInOrder(init, other, inside, i, j);
    } else {
      KeepMembers(init, other, inside);
      assert r[i] in r && r[i] in init;
    }
  }

  lemma {:induction false} KeepMetFirst<T(!new)>(s: seq<T>, other: seq<T>, inside: bool, xs: seq<T>, i: nat, j: nat)
    requires s == AddNew([], xs) && i < j < |Keep(s, other, inside)|
    ensures MetFirst(xs, Keep(s, other, inside)[i], Keep(s, other, inside)[j])
  {
    KeepInOrder(s, other, inside, i, j);
    var x, y := Keep(s, other, inside)[i], Keep(s, other, inside)[j];
    var i', j' :| 0 <= i' < |s| && 0 <= j' < |s| && i' < j' && s[i'] == x && s[j'] == y;
    AddNewMetFirst(xs, i', j');
  }

  lemma Ordered<T(!new)>(known: seq<T>, kept: seq<T>, c: seq<T>, xs: seq<T>)
    requires c == AddNew([], xs)
    ensures IsOrdered(Keep(known, kept, true) + Keep(c, known, false), known, xs)
  {
    var a, b := Keep(known, kept, true), Keep(c, known, false);
    KeepMembers(known, kept, true);
    KeepMembers(c, known, false);
    forall i, j | 0 <= i < |a + b| && 0 <= j < |a + b| && i < j
      ensures KnownFirst(known, xs, (a + b)[i], (a + b)[j])
    {
      if j < |a| {
        KeepInOrder(known, kept, true, i, j);
        assert a[i] in a;
      } else if i < |a| {
        assert a[i] in a && b[j - |a|] in b;
      } else {
        KeepMetFirst(c, known, false, xs, i - |a|, j - |a|);
        assert b[i - |a|] in b && b[j - |a|] in b;
      }
    }
  }

  /** `AddNew` and `Keep` of the first `n` elements. */
  function AddFirst(d: seq<Page>, xs: seq<Page>, n: nat): seq<Page>
    requires n <= |xs|
  {
    if n == 0 then d
    else
      var r := AddFirst(d, xs, n - 1);
      if xs[n - 1] in r then r else r + [xs[n - 1]]
  }

  function DropFirst(xs: seq<Page>, other: seq<Page>, n: nat): seq<Page>
    requires n <= |xs|
  {
    if n == 0 then []
    else
      var r := DropFirst(xs, other, n - 1);
      if xs[n - 1] in other then r else r + [xs[n - 1]]
  }

  lemma {:induction false} AddFirstIs(d: seq<Page>, xs: seq<Page>, n: nat)
    requires n <= |xs|
    ensures AddFirst(d, xs, n) == AddNew(d, xs[..n])
  {
    if n > 0 {
      AddFirstIs(d, xs, n - 1);
      assert xs[..n][..n - 1] == xs[..n - 1];
    }
  }

  lemma {:induction false} DropFirstIs(xs: seq<Page>, other: seq<Page>, n: nat)
    requires n <= |xs|
    ensures DropFirst(xs, other, n) == Keep(xs[..n], other, false)
  {
    if n > 0 {
      DropFirstIs(xs, other, n - 1);
      assert xs[..n][..n - 1] == xs[..n - 1];
    }
  }

  lemma PutKeys(d: Perms, p: Page, v: seq<Action>)
    requires d.Valid()
    ensures d.Put(p, v).keys == if p in d.keys then d.keys else d.keys + [p]
  {
    d.KeysAreAt();
  }

  lemma MergeKey(d: Perms, src: Perms, n: nat)
    requires d.Valid() && src.Valid() && 0 < n <= |src.keys|
    ensures var m, p := Merge(d, src, n - 1), src.keys[n - 1];
      Merge(d, src, n).keys == if p in m.keys then m.keys else m.keys + [p]
  {
    src.KeysAreAt();
    var m, p := Merge(d, src, n - 1), src.keys[n - 1];
    PutKeys(m, p, AddNew(Get(m, p), src.at[p]));
  }

  ghost predicate MergesKeys(d: Perms, src: Perms, n: nat)
    requires d.Valid() && src.Valid() && n <= |src.keys|
  {
    Merge(d, src, n).keys == AddFirst(d.keys, src.keys, n)
  }

  lemma MergesOneMore(d: Perms, src: Perms, n: nat)
    requires d.Valid() && src.Valid() && 0 < n <= |src.keys| && MergesKeys(d, src, n - 1)
    ensures MergesKeys(d, src, n)
  {
    MergeKey(d, src, n);
  }

  lemma {:induction false} MergeKeys(d: Perms, src: Perms, n: nat)
    requires d.Valid() && src.Valid() && n <= |src.keys|
    ensures MergesKeys(d, src, n)
  {
    if n > 0 {
      MergeKeys(d, src, n - 1);
      MergesOneMore(d, src, n);
    }
  }

  lemma {:induction false} MergeAt(d: Perms, src: Perms, n: nat, p: Page)
    requires d.Valid() && src.Valid() && n <= |src.keys|
    ensures Get(Merge(d, src, n), p) == if p in src.keys[..n] then AddNew(Get(d, p), Get(src, p)) else Get(d, p)
  {
    if n > 0 {
      src.KeysAreAt();
      MergeAt(d, src, n - 1, p);
      PrefixSnoc(src.keys, n, p);
      DistinctPrefix(src.keys, n - 1);
      var m, q := Merge(d, src, n - 1), src.keys[n - 1];
      var v := AddNew(Get(m, q), src.at[q]);
      assert Merge(d, src, n) == m.Put(q, v);
      assert Get(m.Put(q, v), p) == if p == q then v else Get(m, p);
    }
  }

  lemma {:induction false} CollectedIs(sources: seq<Perms>, p: Page)
    requires AllValid(sources)
    ensures Collected(sources).keys == AddNew([], AllKeys(sources))
    ensures Get(Collected(sources), p) == AddNew([], AllActions(sources, p))
  {
    if sources != [] {
      var init, last := sources[..|sources| - 1], sources[|sources| - 1];
      CollectedIs(init, p);
      assert last.keys[..|last.keys|] == last.keys;
      last.KeysAreAt();
      MergeKeys(Collected(init), last, |last.keys|);
      AddFirstIs(Collected(init).keys, last.keys, |last.keys|);
      MergeAt(Collected(init), last, |last.keys|, p);
      AddNewIsAppended([], AllKeys(init), last.keys);
      AddNewIsAppended([], AllActions(init, p), Get(last, p));
    }
  }

  lemma RestHas(cat: Catalog, c: Perms, start: Perms, n: nat) returns (has: bool)
    requires c.Valid() && start.Valid() && n < |c.keys|
    ensures has == (c.keys[n] in Rest(cat, c, start, n).at) == (c.keys[n] in start.keys)
  {
    RestAt(cat, c, start, n, c.keys[n]);
    DistinctPrefix(c.keys, n);
    start.KeysAreAt();
    has := c.keys[n] in start.keys;
  }

  ghost predicate RestStep(cat: Catalog, c: Perms, start: Perms, n: nat, has: bool)
    requires c.Valid() && start.Valid() && 0 < n <= |c.keys|
  {
    var r := Rest(cat, c, start, n - 1).keys;
    Rest(cat, c, start, n).keys == if has then r else r + [c.keys[n - 1]]
  }

  lemma RestKey(cat: Catalog, c: Perms, start: Perms, n: nat, has: bool)
    requires c.Valid() && start.Valid() && 0 < n <= |c.keys|
    requires has == (c.keys[n - 1] in Rest(cat, c, start, n - 1).at)
    ensures RestStep(cat, c, start, n, has)
  {
    var r, p := Rest(cat, c, start, n - 1), c.keys[n - 1];
    r.KeysAreAt();
    c.KeysAreAt();
    PutKeys(r, p, OrderActions(cat, p, c.at[p]));
  }

  ghost predicate RestsKeys(cat: Catalog, c: Perms, start: Perms, n: nat)
    requires c.Valid() && start.Valid() && n <= |c.keys|
  {
    Rest(cat, c, start, n).keys == start.keys + DropFirst(c.keys, start.keys, n)
  }

  lemma RestKeyOrNot(cat: Catalog, c: Perms, start: Perms, n: nat)
    requires c.Valid() && start.Valid() && 0 < n <= |c.keys|
    ensures RestStep(cat, c, start, n, c.keys[n - 1] in start.keys)
  {
    var has := RestHas(cat, c, start, n - 1);
    RestKey(cat, c, start, n, has);
  }

  lemma RestsOneMore(cat: Catalog, c: Perms, start: Perms, n: nat)
    requires c.Valid() && start.Valid() && 0 < n <= |c.keys|
    requires RestsKeys(cat, c, start, n - 1) && RestStep(cat, c, start, n, c.keys[n - 1] in start.keys)
    ensures RestsKeys(cat, c, start, n)
  {
  }

  lemma {:induction false} RestKeys(cat: Catalog, c: Perms, start: Perms, n: nat)
    requires c.Valid() && start.Valid() && n <= |c.keys|
    ensures RestsKeys(cat, c, start, n)
  {
    if n > 0 {
      RestKeys(cat, c, start, n - 1);
      RestKeyOrNot(cat, c, start, n);
      RestsOneMore(cat, c, start, n);
    }
  }

  lemma UnionKeys(cat: Catalog, sources: seq<Perms>)
    requires cat.Valid() && AllValid(sources)
    ensures var c := Collected(sources);
      Union(cat, sources).keys == Keep(cat.pages, c.keys, true) + Keep(c.keys, cat.pages, false)
  {
    var c, n := Collected(sources), |cat.pages|;
    var k := Known(cat, c, n);
    assert cat.pages[..n] == cat.pages && c.keys[..|c.keys|] == c.keys;
    KnownKeys(cat, c, n);
    RestKeys(cat, c, k, |c.keys|);
    DropFirstIs(c.keys, k.keys, |c.keys|);
    KeepMembers(cat.pages, c.keys, true);
    KeepDependsOnMembers(c.keys, k.keys, cat.pages, false);
  }

  /** No page and no action comes twice; those of the catalog come first, in its order, and
      the others behind them in the order in which the sources first name them. */
  lemma UnionIsOrdered(cat: Catalog, sources: seq<Perms>, p: Page)
    requires cat.Valid() && AllValid(sources)
    ensures var u := Union(cat, sources);
      && Distinct(u.keys) && IsOrdered(u.keys, cat.pages, AllKeys(sources))
      && (p in u.at ==> IsOrdered(u.at[p], cat.actions(p), AllActions(sources, p)))
  {
    var c := Collected(sources);
    CollectedIs(sources, p);
    UnionKeys(cat, sources);
    Ordered(cat.pages, c.keys, c.keys, AllKeys(sources));
    if p in c.at { Ordered(cat.actions(p), c.at[p], c.at[p], AllActions(sources, p)); }
    UnionAt(cat, sources, p);
  }
}

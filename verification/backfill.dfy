/** The backfill of migration 0037: extra actions for pages with full basic rights, and the
    broadcast page for roles that cover the rest of the catalog. */
module Backfill {
  import opened Permissions
  import opened Migrations

  const BASIC: seq<Action> := [View, Create, Edit, Delete]
  const BROADCAST: seq<Action> := [View, Send]

  function Basics(cat: Catalog, p: Page): seq<Action> { Keep(cat.actions(p), BASIC, true) }
  function Extras(cat: Catalog, p: Page): seq<Action> { Keep(cat.actions(p), BASIC, false) }

  predicate Earns(cat: Catalog, p: Page, current: seq<Action>) {
    && p != Broadcast && Extras(cat, p) != []
    && Basics(cat, p) != [] && Contains(current, Basics(cat, p))
  }

  /** The first `n` pages of the catalog done. */
  function FillPages(cat: Catalog, d: Perms, n: nat): (r: Perms)
    requires d.Valid() && n <= |cat.pages|
    ensures r.Valid()
  {
    if n == 0 then d
    else
      var r := FillPages(cat, d, n - 1);
      var p := cat.pages[n - 1];
      if Earns(cat, p, Get(r, p)) then r.Put(p, AddNew(Get(r, p), Extras(cat, p))) else r
  }

  predicate CoversRest(cat: Catalog, d: Perms) {
    forall p | p in cat.pages && p != Broadcast :: Contains(Get(d, p), cat.actions(p))
  }

  function Fill(cat: Catalog, admin: bool, d: Perms): (r: Perms)
    requires d.Valid()
    ensures !admin ==> r.Valid()
  {
    if admin then FullCatalog(cat)
    else
      var r := FillPages(cat, d, |cat.pages|);
      if CoversRest(cat, r) then r.Put(Broadcast, BROADCAST) else r
  }

  method ApplyBackfill(cat: Catalog, admin: bool, d: Perms) returns (result: Perms)
    requires d.Valid()
    ensures result == Fill(cat, admin, d)
  {
    if admin { return FullCatalog(cat); }
    result := d;
    for i := 0 to |cat.pages|
      invariant result == FillPages(cat, d, i)
    {
      var page := cat.pages[i];
      if page == Broadcast { continue; }
      var pageBasics, pageExtras := Basics(cat, page), Extras(cat, page);
      if pageExtras == [] { continue; }
      var current := Get(result, page);
      if pageBasics != [] && Contains(current, pageBasics) {
        var merged := Extend(current, pageExtras);
        result := result.Put(page, merged);
      }
    }
    var covers := CoversAllButBroadcast(cat, result);
    if covers { result := result.Put(Broadcast, BROADCAST); }
  }

  method CoversAllButBroadcast(cat: Catalog, d: Perms) returns (covers: bool)
    ensures covers <==> CoversRest(cat, d)
  {
    for i := 0 to |cat.pages|
      invariant forall p | p in cat.pages[..i] && p != Broadcast :: Contains(Get(d, p), cat.actions(p))
    {
      var page := cat.pages[i];
      assert page in cat.pages;
      if page != Broadcast && !Contains(Get(d, page), cat.actions(page)) { return false; }
      assert cat.pages[..i + 1] == cat.pages[..i] + [page];
    }
    assert cat.pages[..|cat.pages|] == cat.pages;
    covers := true;
  }

  // ---------------------------------------------------------------- one page

  /** What a page's list becomes. */
  function Filled(cat: Catalog, p: Page, current: seq<Action>): seq<Action> {
    if Earns(cat, p, current) then AddNew(current, Extras(cat, p)) else current
  }

  lemma EarnsNeedsActions(cat: Catalog, p: Page, current: seq<Action>)
    requires cat.Valid() && Earns(cat, p, current)
    ensures current != [] && p in cat.pages
  {
    var b := Basics(cat, p);
    assert b[0] in b;
    KeepMembers(cat.actions(p), BASIC, true);
  }

  lemma {:induction false} FillPagesAt(cat: Catalog, d: Perms, n: nat, p: Page)
    requires cat.Valid() && d.Valid() && n <= |cat.pages|
    ensures p in FillPages(cat, d, n).at <==> p in d.at
    ensures Get(FillPages(cat, d, n), p) == if p in cat.pages[..n] then Filled(cat, p, Get(d, p)) else Get(d, p)
  {
    if n > 0 {
      var q := cat.pages[n - 1];
      FillPagesAt(cat, d, n - 1, p);
      PrefixSnoc(cat.pages, n, p);
      DistinctPrefix(cat.pages, n - 1);
      if p == q && Earns(cat, p, Get(d, p)) { EarnsNeedsActions(cat, p, Get(d, p)); }
    }
  }

  lemma FilledEverywhere(cat: Catalog, d: Perms, p: Page)
    requires cat.Valid() && d.Valid()
    ensures var r := FillPages(cat, d, |cat.pages|);
      (p in r.at <==> p in d.at) && Get(r, p) == Filled(cat, p, Get(d, p))
  {
    FillPagesAt(cat, d, |cat.pages|, p);
    assert cat.pages[..|cat.pages|] == cat.pages;
    if Earns(cat, p, Get(d, p)) { EarnsNeedsActions(cat, p, Get(d, p)); }
  }

  lemma {:induction false} AddNewNothing<T(!new)>(d: seq<T>, xs: seq<T>)
    requires forall x | x in xs :: x in d
    ensures AddNew(d, xs) == d
    decreases |xs|
  {
    if xs != [] {
      assert xs[|xs| - 1] in xs;
      AddNewNothing(d, xs[..|xs| - 1]);
    }
  }

  lemma FilledTwice(cat: Catalog, p: Page, current: seq<Action>)
    ensures Filled(cat, p, Filled(cat, p, current)) == Filled(cat, p, current)
  {
    if Earns(cat, p, current) {
      AddNewMembers(current, Extras(cat, p));
      AddNewNothing(AddNew(current, Extras(cat, p)), Extras(cat, p));
    }
  }

  /** More rights before, more rights after; none lost, none outside the catalog, none twice. */
  lemma FilledIsMonotone(cat: Catalog, p: Page, a: seq<Action>, b: seq<Action>)
    requires Contains(b, a)
    ensures Contains(Filled(cat, p, b), Filled(cat, p, a)) && Contains(Filled(cat, p, a), a)
    ensures PageValid(cat, p, a) ==> PageValid(cat, p, Filled(cat, p, a))
  {
    AddNewMembers(a, Extras(cat, p));
    AddNewMembers(b, Extras(cat, p));
    KeepMembers(cat.actions(p), BASIC, false);
  }

  // ---------------------------------------------------------------- the whole role

  ghost predicate HasBroadcast(cat: Catalog) { Broadcast in cat.pages && cat.actions(Broadcast) == BROADCAST }

  lemma FillAt(cat: Catalog, d: Perms, p: Page)
    requires cat.Valid() && d.Valid()
    ensures var covers := CoversRest(cat, FillPages(cat, d, |cat.pages|));
      && (p in Fill(cat, false, d).at <==> p in d.at || (covers && p == Broadcast))
      && Get(Fill(cat, false, d), p) == if covers && p == Broadcast then BROADCAST else Filled(cat, p, Get(d, p))
  {
    FilledEverywhere(cat, d, p);
  }

  /** On a valid role that is not `admin` the backfill loses nothing and stays valid. */
  lemma FillIsInflationaryAndValid(cat: Catalog, d: Perms)
    requires cat.Valid() && HasBroadcast(cat) && CatalogValid(cat, d)
    ensures Subset(d, Fill(cat, false, d)) && CatalogValid(cat, Fill(cat, false, d))
  {
    var r := Fill(cat, false, d);
    forall p | p in d.at ensures Contains(Get(r, p), Get(d, p)) {
      FillAt(cat, d, p);
      FilledIsMonotone(cat, p, Get(d, p), Get(d, p));
      assert PageValid(cat, p, d.at[p]);
    }
    forall p | p in r.at ensures p in cat.pages && PageValid(cat, p, r.at[p]) {
      FillAt(cat, d, p);
      FilledIsMonotone(cat, p, Get(d, p), Get(d, p));
      assert p in d.at ==> PageValid(cat, p, d.at[p]);
    }
  }

  lemma SubsetIffGets(a: Perms, b: Perms)
    ensures Subset(a, b) <==> forall p :: Contains(Get(b, p), Get(a, p))
  {
    forall p | p in a.at ensures a.at[p] == Get(a, p) { }
    if Subset(a, b) { forall p ensures Contains(Get(b, p), Get(a, p)) { } }
    if forall p :: Contains(Get(b, p), Get(a, p)) {
      forall p | p in a.at ensures forall x | x in a.at[p] :: x in Get(b, p) { assert Contains(Get(b, p), Get(a, p)); }
    }
  }

  lemma LosesIff(d: Perms, f: Perms, covers: bool)
    requires forall p | p != Broadcast :: Contains(Get(f, p), Get(d, p))
    requires Get(f, Broadcast) == if covers then BROADCAST else Get(d, Broadcast)
    ensures Subset(d, f) <==> (covers ==> Contains(BROADCAST, Get(d, Broadcast)))
  {
    SubsetIffGets(d, f);
    assert !covers ==> Contains(Get(f, Broadcast), Get(d, Broadcast));
  }

  /** On any role, valid or not, the only rights it can lose are foreign actions of the
      broadcast page, whose list is replaced. */
  lemma FillLosesIff(cat: Catalog, d: Perms)
    requires cat.Valid() && d.Valid()
    ensures Subset(d, Fill(cat, false, d))
       <==> (CoversRest(cat, FillPages(cat, d, |cat.pages|)) ==> Contains(BROADCAST, Get(d, Broadcast)))
  {
    forall p | p != Broadcast ensures Contains(Get(Fill(cat, false, d), p), Get(d, p)) {
      FillAt(cat, d, p);
      FilledIsMonotone(cat, p, Get(d, p), Get(d, p));
    }
    FillAt(cat, d, Broadcast);
    LosesIff(d, Fill(cat, false, d), CoversRest(cat, FillPages(cat, d, |cat.pages|)));
  }

  lemma RestIsMonotone(cat: Catalog, d: Perms, e: Perms)
    requires cat.Valid() && d.Valid() && e.Valid() && Subset(d, e)
    requires CoversRest(cat, FillPages(cat, d, |cat.pages|))
    ensures CoversRest(cat, FillPages(cat, e, |cat.pages|))
  {
    SubsetIffGets(d, e);
    var r, q := FillPages(cat, d, |cat.pages|), FillPages(cat, e, |cat.pages|);
    forall p | p in cat.pages && p != Broadcast ensures Contains(Get(q, p), cat.actions(p)) {
      FilledEverywhere(cat, d, p);
      FilledEverywhere(cat, e, p);
      assert Contains(Get(e, p), Get(d, p));
      FilledIsMonotone(cat, p, Get(d, p), Get(e, p));
      assert Contains(Get(r, p), cat.actions(p));
    }
  }

  /** A role with fewer rights before has fewer after. */
  lemma FillIsMonotone(cat: Catalog, d: Perms, e: Perms)
    requires cat.Valid() && HasBroadcast(cat) && CatalogValid(cat, d) && e.Valid() && Subset(d, e)
    ensures Subset(Fill(cat, false, d), Fill(cat, false, e))
  {
    SubsetIffGets(d, e);
    if CoversRest(cat, FillPages(cat, d, |cat.pages|)) { RestIsMonotone(cat, d, e); }
    forall p ensures Contains(Get(Fill(cat, false, e), p), Get(Fill(cat, false, d), p)) {
      FillAt(cat, d, p);
      FillAt(cat, e, p);
      assert Contains(Get(e, p), Get(d, p));
      FilledIsMonotone(cat, p, Get(d, p), Get(e, p));
      assert p in d.at ==> PageValid(cat, p, d.at[p]);
    }
    SubsetIffGets(Fill(cat, false, d), Fill(cat, false, e));
  }

  lemma PutSame(r: Perms, p: Page)
    requires r.Valid() && p in r.at
    ensures r.Put(p, r.at[p]) == r
  {
    assert r.Put(p, r.at[p]).at == r.at;
  }

  lemma RefillSame(cat: Catalog, r: Perms, p: Page)
    requires cat.Valid() && r.Valid() && Earns(cat, p, Get(r, p)) && Filled(cat, p, Get(r, p)) == Get(r, p)
    ensures r.Put(p, AddNew(Get(r, p), Extras(cat, p))) == r
  {
    EarnsNeedsActions(cat, p, Get(r, p));
    PutSame(r, p);
  }

  lemma {:induction false} NothingToFill(cat: Catalog, r: Perms, n: nat)
    requires cat.Valid() && r.Valid() && n <= |cat.pages|
    requires forall p :: Filled(cat, p, Get(r, p)) == Get(r, p)
    ensures FillPages(cat, r, n) == r
  {
    if n > 0 {
      var p := cat.pages[n - 1];
      NothingToFill(cat, r, n - 1);
      if Earns(cat, p, Get(r, p)) { RefillSame(cat, r, p); }
    }
  }

  lemma FilledIsStable(cat: Catalog, d: Perms)
    requires cat.Valid() && d.Valid()
    ensures FillPages(cat, Fill(cat, false, d), |cat.pages|) == Fill(cat, false, d)
  {
    var r := Fill(cat, false, d);
    forall p ensures Filled(cat, p, Get(r, p)) == Get(r, p) {
      FillAt(cat, d, p);
      FilledTwice(cat, p, Get(d, p));
    }
    NothingToFill(cat, r, |cat.pages|);
  }

  lemma BroadcastIsApart(cat: Catalog, r: Perms)
    requires r.Valid()
    ensures CoversRest(cat, r.Put(Broadcast, BROADCAST)) <==> CoversRest(cat, r)
  {
    forall p | p != Broadcast ensures Get(r.Put(Broadcast, BROADCAST), p) == Get(r, p) { }
  }

  /** Running the backfill again changes nothing, list for list. */
  lemma FillIsIdempotent(cat: Catalog, d: Perms)
    requires cat.Valid() && d.Valid()
    ensures Fill(cat, false, Fill(cat, false, d)) == Fill(cat, false, d)
  {
    var r := Fill(cat, false, d);
    FilledIsStable(cat, d);
    BroadcastIsApart(cat, FillPages(cat, d, |cat.pages|));
    if CoversRest(cat, r) { PutSame(r, Broadcast); }
  }

  // ---------------------------------------------------------------- who covers the catalog afterwards

  /** What a role must have had on a page to have all of it afterwards: the basic actions
      where they earn the extra ones, and everything elsewhere. */
  function Needed(cat: Catalog, p: Page): seq<Action> {
    if Basics(cat, p) != [] && Extras(cat, p) != [] then Basics(cat, p) else cat.actions(p)
  }

  ghost predicate HasNeeded(cat: Catalog, d: Perms) {
    forall p | p in cat.pages && p != Broadcast :: Contains(Get(d, p), Needed(cat, p))
  }

  lemma FilledHasAll(cat: Catalog, p: Page, current: seq<Action>)
    requires p != Broadcast
    ensures Contains(Filled(cat, p, current), cat.actions(p)) <==> Contains(current, Needed(cat, p))
  {
    KeepMembers(cat.actions(p), BASIC, true);
    KeepMembers(cat.actions(p), BASIC, false);
    AddNewMembers(current, Extras(cat, p));
    if Contains(current, cat.actions(p)) {
      forall a | a in Needed(cat, p) ensures a in current { assert a in cat.actions(p); }
    }
  }

  lemma CoversRestIff(cat: Catalog, d: Perms)
    requires cat.Valid() && d.Valid()
    ensures CoversRest(cat, FillPages(cat, d, |cat.pages|)) <==> HasNeeded(cat, d)
  {
    forall p | p in cat.pages && p != Broadcast
      ensures Contains(Get(FillPages(cat, d, |cat.pages|), p), cat.actions(p)) <==> Contains(Get(d, p), Needed(cat, p))
    {
      FilledEverywhere(cat, d, p);
      FilledHasAll(cat, p, Get(d, p));
    }
  }

  ghost predicate HasAll(cat: Catalog, d: Perms) { forall p | p in cat.pages :: Contains(Get(d, p), cat.actions(p)) }

  lemma HasAllIff(cat: Catalog, d: Perms)
    ensures Subset(FullCatalog(cat), d) <==> HasAll(cat, d)
  {
    var full := FullCatalog(cat);
    assert forall p :: p in full.at <==> p in cat.pages;
    assert forall p | p in full.at :: full.at[p] == cat.actions(p);
  }

  /** What the backfill is for: a role covers the whole catalog afterwards exactly if it had
      what is needed on every page but broadcast, which nobody could have had. */
  lemma FillCoversIff(cat: Catalog, d: Perms)
    requires cat.Valid() && HasBroadcast(cat) && d.Valid()
    ensures HasAll(cat, Fill(cat, false, d)) <==> HasNeeded(cat, d)
  {
    CoversRestIff(cat, d);
    forall p | p in cat.pages
      ensures Contains(Get(Fill(cat, false, d), p), cat.actions(p)) <==>
        if p == Broadcast then HasNeeded(cat, d) || Contains(Get(d, p), BROADCAST)
        else Contains(Get(d, p), Needed(cat, p))
    {
      FillAt(cat, d, p);
      if p != Broadcast { FilledHasAll(cat, p, Get(d, p)); }
    }
  }

  /** How a role of the application is stored. */
  function AsStored(d: Perms): (r: Stored)
    ensures d.Valid() ==> r.Valid()
  {
    Dict(d.keys, map p | p in d.at :: Arr(d.at[p]))
  }

  lemma StoredCovers(cat: Catalog, d: Perms)
    requires cat.Valid()
    ensures Covers(cat, AsStored(d)) <==> HasAll(cat, d)
  {
    forall p | p in cat.pages
      ensures ListsAll(AsStored(d), p, cat.actions(p)) <==> Contains(Get(d, p), cat.actions(p))
    {
      if p !in d.at { assert cat.actions(p)[0] in cat.actions(p); }
    }
  }

  /** 0037, 0041 and 0042 together: a role that is not named admin covers today's catalog
      exactly if it had what 0037 needs, and the basic actions in any users entry it had. */
  lemma ThreeMigrations(d: Perms)
    requires d.Valid()
    ensures Covers(CURRENT, Migrated(OLD, AsStored(Fill(OLD, false, d)))) <==>
      HasNeeded(OLD, d) && (Users in d.at ==> Contains(d.at[Users], USERS_ACTIONS))
  {
    OldFits();
    CurrentAddsUsers();
    var f := Fill(OLD, false, d);
    RoleCoversAfter(OLD, CURRENT, AsStored(f));
    StoredCovers(OLD, f);
    FillCoversIff(OLD, d);
    UsersUntouched(d);
  }

  lemma UsersUntouched(d: Perms)
    requires d.Valid()
    ensures var f := Fill(OLD, false, d);
      (Users in f.at <==> Users in d.at) && (Users in d.at ==> f.at[Users] == d.at[Users])
  {
    OldFits();
    FillAt(OLD, d, Users);
    assert OLD.actions(Users) == [] && Extras(OLD, Users) == [];
  }

  lemma OldFits()
    ensures OLD.Valid() && HasBroadcast(OLD)
  {
    OldIsValid();
    assert OLD.pages[12] == Broadcast;
  }

  /** The migration's own catalog meets what the results ask for, so they hold there. */
  lemma BackfillOfRoles(d: Perms)
    requires CatalogValid(OLD, d)
    ensures var f := Fill(OLD, false, d);
      Subset(d, f) && CatalogValid(OLD, f) && Fill(OLD, false, f) == f
    ensures Subset(FullCatalog(OLD), Fill(OLD, false, d)) <==> HasNeeded(OLD, d)
  {
    OldFits();
    FillCoversIff(OLD, d);
    HasAllIff(OLD, Fill(OLD, false, d));
    FillIsInflationaryAndValid(OLD, d);
    FillIsIdempotent(OLD, d);
  }

  // ---------------------------------------------------------------- at the real catalog

  /** The actions that the backfill adds, page by page. */
  predicate IsExtra(p: Page, a: Action) {
    || (p == Mail && (a == Sync || a == Tags))
    || (p == Sms && (a == Transfer || a == Sync))
    || (p == Documents && a == Share)
  }

  /** What a role must have on a page to be given them. */
  predicate HasBasics(p: Page, current: seq<Action>) {
    && View in current && Edit in current && Delete in current
    && (p == Sms || Create in current)
  }

  lemma OldExtras(p: Page, a: Action)
    ensures a in Extras(OLD, p) <==> IsExtra(p, a) || (p == Broadcast && a == Send)
  {
    KeepMembers(OLD.actions(p), BASIC, false);
  }

  lemma OldBasics(p: Page, current: seq<Action>)
    requires p == Mail || p == Sms || p == Documents
    ensures Basics(OLD, p) != [] && (Contains(current, Basics(OLD, p)) <==> HasBasics(p, current))
  {
    KeepMembers(OLD.actions(p), BASIC, true);
    assert OLD.actions(p)[0] == View && View in BASIC by { assert BASIC[0] == View; }
    assert View in Basics(OLD, p);
    forall a | a in Basics(OLD, p) ensures a == View || a == Edit || a == Delete || (p != Sms && a == Create) { }
    assert BASIC[1] == Create && BASIC[2] == Edit && BASIC[3] == Delete;
    if p == Sms {
      assert OLD.actions(p)[1] == Edit && OLD.actions(p)[4] == Delete;
    } else {
      assert OLD.actions(p)[1] == Create && OLD.actions(p)[2] == Edit && OLD.actions(p)[3] == Delete;
    }
  }

  /** What the backfill grants on any page but broadcast: what the role had, and the extra
      actions of mail, SMS and documents to a role with all basic actions of that page. */
  lemma BackfillGrants(d: Perms, p: Page, a: Action)
    requires d.Valid() && p != Broadcast
    ensures a in Get(Fill(OLD, false, d), p) <==> a in Get(d, p) || (IsExtra(p, a) && HasBasics(p, Get(d, p)))
  {
    OldFits();
    FillAt(OLD, d, p);
    OldExtras(p, a);
    AddNewMembers(Get(d, p), Extras(OLD, p));
    if p == Mail || p == Sms || p == Documents {
      OldBasics(p, Get(d, p));
      if IsExtra(p, a) { assert Extras(OLD, p) != []; }
    } else if Extras(OLD, p) != [] {
      OldExtras(p, Extras(OLD, p)[0]);
    }
  }

  lemma {:induction false} AddNewAppends<T>(d: seq<T>, xs: seq<T>)
    ensures d <= AddNew(d, xs)
    decreases |xs|
  {
    if xs != [] { AddNewAppends(d, xs[..|xs| - 1]); }
  }

  /** New actions go to the end of a page's list; nothing in front of them moves. */
  lemma BackfillAppends(d: Perms, p: Page)
    requires d.Valid() && p != Broadcast
    ensures Get(d, p) <= Get(Fill(OLD, false, d), p)
  {
    OldFits();
    FillAt(OLD, d, p);
    AddNewAppends(Get(d, p), Extras(OLD, p));
  }

  /** What a role must have on each page to be given broadcast. */
  function Floor(p: Page): seq<Action> {
    match p
    case Dashboard => [View]
    case BackendUsers => [View, Edit]
    case BackendEconomics => [View, Edit]
    case Sms => [View, Edit, Delete]
    case Broadcast => []
    case Users => []
    case OtherPage(_) => []
    case _ => [View, Create, Edit, Delete]
  }

  ghost predicate HasFloor(d: Perms) { forall p :: Contains(Get(d, p), Floor(p)) }

  lemma FloorHasBasics(p: Page, current: seq<Action>)
    requires p == Mail || p == Sms || p == Documents
    ensures Contains(current, Floor(p)) <==> HasBasics(p, current)
  {
    var f := Floor(p);
    assert f[0] == View && f[|f| - 1] == Delete && f[|f| - 2] == Edit && (p != Sms ==> f[1] == Create);
  }

  lemma NeededOn(p: Page, current: seq<Action>)
    requires p in OLD.pages && p != Broadcast
    ensures Contains(current, Needed(OLD, p)) <==> Contains(current, Floor(p))
  {
    if p == Mail || p == Sms || p == Documents {
      OldBasics(p, current);
      FloorHasBasics(p, current);
      OldExtras(p, if p == Documents then Share else Sync);
    } else if Extras(OLD, p) != [] {
      OldExtras(p, Extras(OLD, p)[0]);
    }
  }

  lemma NeededAtOld(d: Perms)
    ensures HasNeeded(OLD, d) <==> HasFloor(d)
  {
    forall p ensures (p in OLD.pages && p != Broadcast) || Floor(p) == [] { ActionsIffPage(p); }
    forall p | p in OLD.pages && p != Broadcast
      ensures Contains(Get(d, p), Needed(OLD, p)) <==> Contains(Get(d, p), Floor(p))
    {
      NeededOn(p, Get(d, p));
    }
    assert Floor(Broadcast) == [];
  }

  /** The broadcast page afterwards: both actions for such a role, and what it had otherwise. */
  lemma BackfillOfBroadcast(d: Perms)
    requires d.Valid()
    ensures Get(Fill(OLD, false, d), Broadcast) == if HasFloor(d) then [View, Send] else Get(d, Broadcast)
  {
    OldFits();
    FillAt(OLD, d, Broadcast);
    CoversRestIff(OLD, d);
    NeededAtOld(d);
  }

  /** The role named admin gets exactly the catalog of 0037, whatever it had. */
  lemma AdminGetsCatalog(d: Perms, p: Page)
    requires d.Valid()
    ensures p in Fill(OLD, true, d).at <==> p != Users && !p.OtherPage?
    ensures Get(Fill(OLD, true, d), p) ==
      match p
      case Dashboard => [View]
      case BackendUsers => [View, Edit]
      case BackendEconomics => [View, Edit]
      case Mail => [View, Create, Edit, Delete, Sync, Tags]
      case Sms => [View, Edit, Transfer, Sync, Delete]
      case Documents => [View, Create, Edit, Delete, Share]
      case Broadcast => [View, Send]
      case Users => []
      case OtherPage(_) => []
      case _ => [View, Create, Edit, Delete]
  {
    ActionsIffPage(p);
    assert Fill(OLD, true, d) == FullCatalog(OLD);
    assert p in FullCatalog(OLD).at <==> p in OLD.pages;
  }
}

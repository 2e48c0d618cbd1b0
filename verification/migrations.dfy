/** The data migrations 0041 (the `users` page) and 0042 (the `assign_any` action) of stored
    role permissions, and what they do to the admin level of users. */
module Migrations {
  import opened Prelude
  import opened Permissions

  /** A stored value: the column is JSON, so a page may hold something that is no list. */
  datatype Json = Arr(items: seq<Action>) | NotArr

  type Stored = Dict<Json>

  function OldActions(p: Page): seq<Action> { if p == Users then [] else CurrentActions(p) }

  /** The catalog of 13 pages that the migrations carry as their own copy. */
  const OLD := Catalog([Dashboard, Servers, AiKeys, Proxies, Backends, BackendUsers, BackendEconomics,
                        Mail, Sms, Roles, Teams, Documents, Broadcast], OldActions)

  /** The step from the old catalog to the new one: one page more, nothing else changed. */
  ghost predicate AddsUsers(old_: Catalog, new_: Catalog) {
    && Users !in old_.pages
    && new_.pages == old_.pages + [Users]
    && (forall p | p != Users :: new_.actions(p) == old_.actions(p))
    && new_.actions(Users) == USERS_ACTIONS + [AssignAny]
  }

  lemma CurrentAddsUsers()
    ensures AddsUsers(OLD, CURRENT)
  {
  }

  lemma {:induction false} PairwiseDistinct<T>(s: seq<T>)
    requires forall i, j | 0 <= i < j < |s| :: s[i] != s[j]
    ensures Distinct(s)
  {
    if s != [] { PairwiseDistinct(s[..|s| - 1]); }
  }

  lemma ActionsAreDistinct(p: Page)
    ensures Distinct(CurrentActions(p)) && Distinct(OldActions(p))
  {
    PairwiseDistinct(CurrentActions(p));
    PairwiseDistinct(OldActions(p));
  }

  lemma PagesAreDistinct()
    ensures Distinct(CURRENT.pages) && Distinct(OLD.pages)
  {
    PairwiseDistinct(CURRENT.pages);
    PairwiseDistinct(OLD.pages);
  }

  lemma ActionsIffPage(p: Page)
    ensures CurrentActions(p) != [] <==> p in CURRENT.pages
    ensures OldActions(p) != [] <==> p in OLD.pages
  {
  }

  lemma CurrentIsValid()
    ensures CURRENT.Valid()
  {
    PagesAreDistinct();
    forall p ensures Distinct(CURRENT.actions(p)) && (CURRENT.actions(p) != [] <==> p in CURRENT.pages) {
      ActionsAreDistinct(p);
      ActionsIffPage(p);
    }
  }

  lemma OldIsValid()
    ensures OLD.Valid()
  {
    PagesAreDistinct();
    forall p ensures Distinct(OLD.actions(p)) && (OLD.actions(p) != [] <==> p in OLD.pages) {
      ActionsAreDistinct(p);
      ActionsIffPage(p);
    }
  }

  // ---------------------------------------------------------------- 0041 and 0042

  predicate Contains(xs: seq<Action>, ys: seq<Action>) { forall y | y in ys :: y in xs }

  predicate ListsAll(d: Stored, p: Page, actions: seq<Action>) {
    p in d.at && d.at[p].Arr? && Contains(d.at[p].items, actions)
  }

  /** A single role covers a catalog. */
  predicate Covers(cat: Catalog, d: Stored) { forall p | p in cat.pages :: ListsAll(d, p, cat.actions(p)) }

  method CoversOldCatalog(cat: Catalog, d: Stored) returns (covers: bool)
    ensures covers == Covers(cat, d)
  {
    for i := 0 to |cat.pages|
      invariant forall j | 0 <= j < i :: ListsAll(d, cat.pages[j], cat.actions(cat.pages[j]))
    {
      var p := cat.pages[i];
      assert p in cat.pages;
      if p !in d.at || d.at[p].NotArr? { return false; }
      if !Contains(d.at[p].items, cat.actions(p)) { return false; }
    }
    covers := true;
  }

  const USERS_ACTIONS: seq<Action> := [View, Create, Edit, Delete]

  function Up41(cat: Catalog, d: Stored): (r: Stored)
    requires d.Valid()
    ensures r.Valid()
  {
    WithUsers(d, Covers(cat, d))
  }

  function WithUsers(d: Stored, covers: bool): (r: Stored)
    requires d.Valid()
    ensures r.Valid()
  {
    if Users in d.at || !covers then d else d.Put(Users, Arr(USERS_ACTIONS))
  }

  function Up42(d: Stored): (r: Stored)
    requires d.Valid()
    ensures r.Valid()
  {
    if Users !in d.at || d.at[Users].NotArr? then d
    else
      var actions := d.at[Users].items;
      if AssignAny in actions || (Create !in actions && Edit !in actions) then d
      else d.Put(Users, Arr(actions + [AssignAny]))
  }

  function Without(actions: seq<Action>, a: Action): seq<Action> { Keep(actions, [a], false) }

  function Down42(d: Stored): (r: Stored)
    requires d.Valid()
    ensures r.Valid()
  {
    if Users !in d.at || d.at[Users].NotArr? || AssignAny !in d.at[Users].items then d
    else d.Put(Users, Arr(Without(d.at[Users].items, AssignAny)))
  }

  /** The permissions of all roles, row by row, migrated in place. */
  class RoleTable {
    var rows: seq<Stored>

    ghost predicate Valid() reads this { forall i | 0 <= i < |rows| :: rows[i].Valid() }

    constructor (rows: seq<Stored>)
      ensures this.rows == rows
    {
      this.rows := rows;
    }

    method Upgrade0041(cat: Catalog)
      requires Valid()
      modifies this
      ensures Valid() && |rows| == |old(rows)|
      ensures forall i | 0 <= i < |rows| :: rows[i] == Up41(cat, old(rows)[i])
    {
      for i := 0 to |rows|
        invariant Valid() && |rows| == |old(rows)|
        invariant forall j | 0 <= j < |rows| :: rows[j] == if j < i then Up41(cat, old(rows)[j]) else old(rows)[j]
      {
        var current := rows[i];
        var covers := CoversOldCatalog(cat, current);
        if Users in current.at || !covers { continue; }
        rows := rows[i := current.Put(Users, Arr(USERS_ACTIONS))];
      }
    }

    method Upgrade0042()
      requires Valid()
      modifies this
      ensures Valid() && |rows| == |old(rows)|
      ensures forall i | 0 <= i < |rows| :: rows[i] == Up42(old(rows)[i])
    {
      for i := 0 to |rows|
        invariant Valid() && |rows| == |old(rows)|
        invariant forall j | 0 <= j < |rows| :: rows[j] == if j < i then Up42(old(rows)[j]) else old(rows)[j]
      {
        var current := rows[i];
        if Users !in current.at || current.at[Users].NotArr? { continue; }
        var actions := current.at[Users].items;
        if AssignAny in actions { continue; }
        if Create !in actions && Edit !in actions { continue; }
        rows := rows[i := current.Put(Users, Arr(actions + [AssignAny]))];
      }
    }

    method Downgrade0042()
      requires Valid()
      modifies this
      ensures Valid() && |rows| == |old(rows)|
      ensures forall i | 0 <= i < |rows| :: rows[i] == Down42(old(rows)[i])
    {
      for i := 0 to |rows|
        invariant Valid() && |rows| == |old(rows)|
        invariant forall j | 0 <= j < |rows| :: rows[j] == if j < i then Down42(old(rows)[j]) else old(rows)[j]
      {
        var current := rows[i];
        if Users !in current.at || current.at[Users].NotArr? || AssignAny !in current.at[Users].items { continue; }
        rows := rows[i := current.Put(Users, Arr(Without(current.at[Users].items, AssignAny)))];
      }
    }
  }

  lemma WithoutAdded(actions: seq<Action>, a: Action)
    requires a !in actions
    ensures Without(actions + [a], a) == actions
  {
    KeepAll(actions, [a], false);
    KeepSnoc(actions, a, [a], false);
  }

  lemma PutBack(d: Stored, p: Page, v: Json)
    requires d.Valid() && p in d.at
    ensures d.Put(p, v).Put(p, d.at[p]) == d
  {
    assert d.Put(p, v).Put(p, d.at[p]).at == d.at;
  }

  /** Downgrading 0042 gives back exactly the roles that did not have the action before. */
  lemma Downgrade42Restores(d: Stored)
    requires d.Valid()
    ensures Down42(Up42(d)) == d <==> !(Users in d.at && d.at[Users].Arr? && AssignAny in d.at[Users].items)
  {
    if Users in d.at && d.at[Users].Arr? {
      var actions := d.at[Users].items;
      if AssignAny in actions {
        KeepMembers(actions, [AssignAny], false);
        assert AssignAny !in Without(actions, AssignAny);
      } else {
        WithoutAdded(actions, AssignAny);
        PutBack(d, Users, Arr(actions + [AssignAny]));
      }
    }
  }

  /** 0041 and then 0042, on one role. */
  function Migrated(cat: Catalog, d: Stored): (r: Stored)
    requires d.Valid()
    ensures r.Valid()
  {
    Up42(Up41(cat, d))
  }

  lemma MigratedElsewhere(d: Stored, covers: bool, p: Page)
    requires d.Valid() && p != Users
    ensures var m := Up42(WithUsers(d, covers));
      (p in m.at <==> p in d.at) && (p in d.at ==> m.at[p] == d.at[p])
  {
  }

  /** The `users` entry after both migrations. */
  lemma MigratedUsers(d: Stored, covers: bool)
    requires d.Valid()
    ensures var m := Up42(WithUsers(d, covers));
      && (Users !in d.at ==> (Users in m.at <==> covers))
      && (ListsAll(m, Users, USERS_ACTIONS + [AssignAny])
          <==> if Users in d.at then ListsAll(d, Users, USERS_ACTIONS) else covers)
  {
    var all := USERS_ACTIONS + [AssignAny];
    assert forall a :: a in all <==> a in USERS_ACTIONS || a == AssignAny;
    assert USERS_ACTIONS[1] == Create && USERS_ACTIONS[2] == Edit;
    var m := WithUsers(d, covers);
    if Users in m.at && m.at[Users].Arr? {
      var actions := m.at[Users].items;
      assert forall a :: a in actions + [AssignAny] <==> a in actions || a == AssignAny;
    }
  }

  /** A role ends up covering today's catalog exactly if it covered the old one and, where
      it already had a `users` entry, that entry listed the four basic actions. */
  lemma RoleCoversAfter(old_: Catalog, new_: Catalog, d: Stored)
    requires d.Valid() && AddsUsers(old_, new_)
    ensures Covers(new_, Migrated(old_, d))
       <==> Covers(old_, d) && (Users in d.at ==> ListsAll(d, Users, USERS_ACTIONS))
  {
    var m := Migrated(old_, d);
    forall p | p in old_.pages ensures ListsAll(m, p, new_.actions(p)) <==> ListsAll(d, p, old_.actions(p)) {
      MigratedElsewhere(d, Covers(old_, d), p);
    }
    MigratedUsers(d, Covers(old_, d));
    assert forall p :: p in new_.pages <==> p in old_.pages || p == Users;
  }

  // ---------------------------------------------------------------- users with several roles

  /** The dictionary that the application loads. */
  function Load(d: Stored): (r: Perms)
    ensures d.Valid() ==> r.Valid()
  {
    Dict(d.keys, map p | p in d.at :: if d.at[p].Arr? then d.at[p].items else [])
  }

  ghost predicate StoredValid(roles: seq<Stored>) { forall i | 0 <= i < |roles| :: roles[i].Valid() }

  ghost predicate NoUsersEntry(roles: seq<Stored>) { forall i | 0 <= i < |roles| :: Users !in roles[i].at }

  function LoadAll(roles: seq<Stored>): (r: seq<Perms>)
    requires StoredValid(roles)
    ensures |r| == |roles| && AllValid(r) && forall i | 0 <= i < |r| :: r[i] == Load(roles[i])
  {
    seq(|roles|, i requires 0 <= i < |roles| => Load(roles[i]))
  }

  function MigrateAll(cat: Catalog, roles: seq<Stored>): (r: seq<Stored>)
    requires StoredValid(roles)
    ensures |r| == |roles| && StoredValid(r) && forall i | 0 <= i < |r| :: r[i] == Migrated(cat, roles[i])
  {
    seq(|roles|, i requires 0 <= i < |roles| => Migrated(cat, roles[i]))
  }

  /** Catalog coverage by union, as the admin level asks for it. */
  ghost predicate UserCovers(cat: Catalog, roles: seq<Stored>)
    requires StoredValid(roles)
  {
    Subset(FullCatalog(cat), Union(cat, LoadAll(roles)))
  }

  lemma UserCoversIff(cat: Catalog, roles: seq<Stored>)
    requires StoredValid(roles)
    ensures UserCovers(cat, roles)
       <==> forall p, a | p in cat.pages && a in cat.actions(p) ::
              exists i | 0 <= i < |roles| :: a in Get(Load(roles[i]), p)
  {
    var sources := LoadAll(roles);
    CoverageIsByGrants(cat, sources);
    forall p, a ensures SomeGrants(sources, p, a) <==> exists i | 0 <= i < |roles| :: a in Get(Load(roles[i]), p) {
      SomeGrantsIff(sources, p, a);
      if i :| 0 <= i < |roles| && a in Get(Load(roles[i]), p) { assert sources[i] == Load(roles[i]); }
    }
  }

  lemma CoveringRoleSuffices(cat: Catalog, roles: seq<Stored>, i: nat)
    requires StoredValid(roles) && i < |roles| && Covers(cat, roles[i])
    ensures UserCovers(cat, roles)
  {
    UserCoversIff(cat, roles);
    forall p, a | p in cat.pages && a in cat.actions(p)
      ensures exists j | 0 <= j < |roles| :: a in Get(Load(roles[j]), p)
    {
      assert ListsAll(roles[i], p, cat.actions(p));
      assert a in Get(Load(roles[i]), p);
    }
  }

  lemma Granting(cat: Catalog, roles: seq<Stored>, p: Page, a: Action) returns (i: nat)
    requires StoredValid(roles) && UserCovers(cat, roles) && p in cat.pages && a in cat.actions(p)
    ensures i < |roles| && a in Get(Load(roles[i]), p)
  {
    UserCoversIff(cat, roles);
    i :| i < |roles| && a in Get(Load(roles[i]), p);
  }

  lemma CoverageNeedsOneRole(old_: Catalog, new_: Catalog, roles: seq<Stored>) returns (i: nat)
    requires AddsUsers(old_, new_)
    requires StoredValid(roles) && NoUsersEntry(roles) && UserCovers(new_, MigrateAll(old_, roles))
    ensures i < |roles| && Covers(old_, roles[i])
  {
    assert Users in new_.pages && new_.actions(Users)[0] == View;
    i := Granting(new_, MigrateAll(old_, roles), Users, View);
    MigratedUsers(roles[i], Covers(old_, roles[i]));
  }

  lemma OneRoleKeepsCoverage(old_: Catalog, new_: Catalog, roles: seq<Stored>, i: nat)
    requires AddsUsers(old_, new_)
    requires StoredValid(roles) && NoUsersEntry(roles) && i < |roles| && Covers(old_, roles[i])
    ensures UserCovers(new_, MigrateAll(old_, roles))
  {
    RoleCoversAfter(old_, new_, roles[i]);
    CoveringRoleSuffices(new_, MigrateAll(old_, roles), i);
  }

  /** What a role grants on the users page after both migrations, in terms of what it was:
      a list of its own decides, and gains `assign_any` where it had create or edit; without
      an entry the role gets everything if it covers the old catalog by itself. */
  predicate GrantsUsers(old_: Catalog, d: Stored, a: Action) {
    if Users in d.at then
      d.at[Users].Arr?
      && (a in d.at[Users].items || (a == AssignAny && (Create in d.at[Users].items || Edit in d.at[Users].items)))
    else
      Covers(old_, d) && a in USERS_ACTIONS + [AssignAny]
  }

  /** The users entry itself, before anything is read from it. */
  function UsersEntry(d: Stored): Option<Json> { if Users in d.at then Some(d.at[Users]) else None }

  function MigratedEntry(entry: Option<Json>, covers: bool): Option<Json> {
    match entry
    case None => if covers then Some(Arr(USERS_ACTIONS + [AssignAny])) else None
    case Some(NotArr) => entry
    case Some(Arr(actions)) =>
      if AssignAny in actions || (Create !in actions && Edit !in actions) then entry
      else Some(Arr(actions + [AssignAny]))
  }

  lemma EntryOfUp42(d: Stored)
    requires d.Valid() && Users in d.at
    ensures UsersEntry(Up42(d)) == MigratedEntry(Some(d.at[Users]), false)
  {
  }

  lemma EntryAfter(d: Stored, covers: bool)
    requires d.Valid()
    ensures UsersEntry(Up42(WithUsers(d, covers))) == MigratedEntry(UsersEntry(d), covers)
  {
    var m := WithUsers(d, covers);
    if Users in m.at { EntryOfUp42(m); }
    assert USERS_ACTIONS[1] == Create && AssignAny !in USERS_ACTIONS;
  }

  lemma LoadedActions(d: Stored, a: Action)
    ensures a in Get(Load(d), Users) <==>
      UsersEntry(d).Some? && UsersEntry(d).value.Arr? && a in UsersEntry(d).value.items
  {
  }

  lemma EntryGrants(entry: Option<Json>, covers: bool, a: Action)
    ensures var e := MigratedEntry(entry, covers);
      (e.Some? && e.value.Arr? && a in e.value.items) <==>
        match entry
        case None => covers && a in USERS_ACTIONS + [AssignAny]
        case Some(NotArr) => false
        case Some(Arr(actions)) => a in actions || (a == AssignAny && (Create in actions || Edit in actions))
  {
    if entry.Some? && entry.value.Arr? {
      var actions := entry.value.items;
      assert a in actions + [AssignAny] <==> a in actions || a == AssignAny;
    }
  }

  lemma MigratedGrants(old_: Catalog, d: Stored, a: Action)
    requires d.Valid()
    ensures a in Get(Load(Migrated(old_, d)), Users) <==> GrantsUsers(old_, d, a)
  {
    var covers := Covers(old_, d);
    EntryAfter(d, covers);
    LoadedActions(Migrated(old_, d), a);
    EntryGrants(UsersEntry(d), covers, a);
  }

  ghost predicate AllUsersActions(old_: Catalog, new_: Catalog, roles: seq<Stored>) {
    forall a | a in new_.actions(Users) :: exists i | 0 <= i < |roles| :: GrantsUsers(old_, roles[i], a)
  }

  lemma UsersActionsIff(old_: Catalog, new_: Catalog, roles: seq<Stored>)
    requires StoredValid(roles)
    ensures AllUsersActions(old_, new_, roles) <==>
      forall a | a in new_.actions(Users) ::
        exists i | 0 <= i < |roles| :: a in Get(Load(MigrateAll(old_, roles)[i]), Users)
  {
    forall a, i | 0 <= i < |roles|
      ensures GrantsUsers(old_, roles[i], a) <==> a in Get(Load(MigrateAll(old_, roles)[i]), Users)
    {
      MigratedGrants(old_, roles[i], a);
    }
  }

  lemma OldPagesUnchanged(old_: Catalog, roles: seq<Stored>, p: Page, i: nat)
    requires StoredValid(roles) && i < |roles| && p != Users
    ensures Get(Load(MigrateAll(old_, roles)[i]), p) == Get(Load(roles[i]), p)
  {
    MigratedElsewhere(roles[i], Covers(old_, roles[i]), p);
  }

  lemma OldCoverageIff(old_: Catalog, roles: seq<Stored>)
    requires StoredValid(roles) && Users !in old_.pages
    ensures UserCovers(old_, MigrateAll(old_, roles)) <==> UserCovers(old_, roles)
  {
    var migrated := MigrateAll(old_, roles);
    UserCoversIff(old_, roles);
    UserCoversIff(old_, migrated);
    forall p, i | p in old_.pages && 0 <= i < |roles| ensures Get(Load(migrated[i]), p) == Get(Load(roles[i]), p) {
      OldPagesUnchanged(old_, roles, p, i);
    }
  }

  lemma NewCoverageIff(old_: Catalog, new_: Catalog, roles: seq<Stored>)
    requires AddsUsers(old_, new_) && StoredValid(roles)
    ensures UserCovers(new_, roles) <==>
      && UserCovers(old_, roles)
      && forall a | a in new_.actions(Users) :: exists i | 0 <= i < |roles| :: a in Get(Load(roles[i]), Users)
  {
    UserCoversIff(old_, roles);
    UserCoversIff(new_, roles);
    assert forall p :: p in new_.pages <==> p in old_.pages || p == Users;
  }

  /** Any user covers the new catalog after both migrations exactly if the roles together
      covered the old one and each action of the users page is granted by some role. */
  lemma UserCoversAfter(old_: Catalog, new_: Catalog, roles: seq<Stored>)
    requires AddsUsers(old_, new_) && StoredValid(roles)
    ensures UserCovers(new_, MigrateAll(old_, roles)) <==> UserCovers(old_, roles) && AllUsersActions(old_, new_, roles)
  {
    NewCoverageIff(old_, new_, MigrateAll(old_, roles));
    OldCoverageIff(old_, roles);
    UsersActionsIff(old_, new_, roles);
  }

  /** In the store that 0041 was written for no role has a `users` entry: then a user covers
      the new catalog exactly if some single role covered the old one. */
  lemma OneRoleMustCover(old_: Catalog, new_: Catalog, roles: seq<Stored>)
    requires AddsUsers(old_, new_)
    requires StoredValid(roles) && NoUsersEntry(roles)
    ensures UserCovers(new_, MigrateAll(old_, roles)) <==> exists i | 0 <= i < |roles| :: Covers(old_, roles[i])
  {
    if UserCovers(new_, MigrateAll(old_, roles)) {
      var i := CoverageNeedsOneRole(old_, new_, roles);
    }
    if i :| 0 <= i < |roles| && Covers(old_, roles[i]) {
      OneRoleKeepsCoverage(old_, new_, roles, i);
    }
  }

  function WithNames(names: seq<string>, roles: seq<Stored>): (r: seq<Role>)
    requires StoredValid(roles) && |names| == |roles|
    ensures |r| == |roles| && AllValid(PermsOf(r))
    ensures PermsOf(r) == LoadAll(roles) && forall i | 0 <= i < |r| :: r[i].name == names[i]
  {
    var r := seq(|roles|, i requires 0 <= i < |roles| => Role(names[i], Load(roles[i])));
    assert PermsOf(r) == LoadAll(roles);
    r
  }

  lemma NamedAdmin(names: seq<string>, users: seq<Role>)
    requires |users| == |names| && forall i | 0 <= i < |users| :: users[i].name == names[i]
    ensures (exists i | 0 <= i < |users| :: users[i].name == ADMIN) <==> ADMIN in names
  {
    if i :| 0 <= i < |names| && names[i] == ADMIN { assert users[i].name == ADMIN; }
  }

  lemma AdminLevelIs(cat: Catalog, superadmin: bool, names: seq<string>, roles: seq<Stored>)
    requires StoredValid(roles) && |names| == |roles|
    ensures IsAdminLevel(cat, superadmin, WithNames(names, roles))
       <==> superadmin || ADMIN in names || UserCovers(cat, roles)
  {
    NamedAdmin(names, WithNames(names, roles));
  }

  /** The admin level after both migrations, for every user: by flag, by name, or because
      the roles together covered the catalog of 13 pages and grant each users action. */
  lemma AdminLevelAfter(superadmin: bool, names: seq<string>, roles: seq<Stored>)
    requires StoredValid(roles) && |names| == |roles|
    ensures IsAdminLevel(CURRENT, superadmin, WithNames(names, MigrateAll(OLD, roles)))
       <==> superadmin || ADMIN in names || (UserCovers(OLD, roles) && AllUsersActions(OLD, CURRENT, roles))
  {
    CurrentAddsUsers();
    AdminLevelIffCovered(OLD, CURRENT, superadmin, names, roles);
  }

  lemma AdminLevelIffCovered(old_: Catalog, new_: Catalog, superadmin: bool, names: seq<string>, roles: seq<Stored>)
    requires AddsUsers(old_, new_) && StoredValid(roles) && |names| == |roles|
    ensures IsAdminLevel(new_, superadmin, WithNames(names, MigrateAll(old_, roles)))
       <==> superadmin || ADMIN in names || (UserCovers(old_, roles) && AllUsersActions(old_, new_, roles))
  {
    UserCoversAfter(old_, new_, roles);
    AdminLevelIs(new_, superadmin, names, MigrateAll(old_, roles));
  }

  /** A role with the catalog's actions on the chosen pages. */
  function OnPages(cat: Catalog, keep: Page -> bool, n: nat): (d: Stored)
    requires n <= |cat.pages|
    ensures d.Valid()
    ensures forall p :: p in d.at <==> p in cat.pages[..n] && keep(p)
    ensures forall p | p in d.at :: d.at[p] == Arr(cat.actions(p))
  {
    if n == 0 then Dict([], map[])
    else
      var d := OnPages(cat, keep, n - 1);
      assert cat.pages[..n] == cat.pages[..n - 1] + [cat.pages[n - 1]];
      if keep(cat.pages[n - 1]) then d.Put(cat.pages[n - 1], Arr(cat.actions(cat.pages[n - 1]))) else d
  }

  /** One role for a single page of the catalog and one for all the others. */
  lemma Halves(cat: Catalog, p: Page, q: Page) returns (a: Stored, b: Stored)
    requires cat.Valid() && p in cat.pages && q in cat.pages && p != q
    ensures a.Valid() && b.Valid() && !Covers(cat, a) && !Covers(cat, b)
    ensures p in a.at && a.at[p] == Arr(cat.actions(p))
    ensures forall r | r in cat.pages && r != p :: r in b.at && b.at[r] == Arr(cat.actions(r))
    ensures forall r | r !in cat.pages :: r !in a.at && r !in b.at
  {
    var n := |cat.pages|;
    a, b := OnPages(cat, x => x == p, n), OnPages(cat, x => x != p, n);
    assert cat.pages[..n] == cat.pages;
    assert !ListsAll(a, q, cat.actions(q)) && !ListsAll(b, p, cat.actions(p));
  }

  lemma NeitherCovers(old_: Catalog, new_: Catalog, roles: seq<Stored>)
    requires AddsUsers(old_, new_) && StoredValid(roles) && NoUsersEntry(roles)
    requires forall i | 0 <= i < |roles| :: !Covers(old_, roles[i])
    ensures !UserCovers(new_, MigrateAll(old_, roles))
  {
    if UserCovers(new_, MigrateAll(old_, roles)) {
      var i := CoverageNeedsOneRole(old_, new_, roles);
      assert false;
    }
  }

  /** The hypothesis of a single covering role is needed: for two pages of the catalog, two
      roles that cover it only together lose the coverage. */
  lemma TwoRolesLoseCoverage(old_: Catalog, new_: Catalog, p: Page, q: Page) returns (a: Stored, b: Stored)
    requires AddsUsers(old_, new_) && old_.Valid() && p in old_.pages && q in old_.pages && p != q
    ensures StoredValid([a, b]) && NoUsersEntry([a, b])
    ensures UserCovers(old_, [a, b])
    ensures !UserCovers(new_, MigrateAll(old_, [a, b]))
  {
    a, b := Halves(old_, p, q);
    NeitherCovers(old_, new_, [a, b]);
    UnionOfTwoCovers(old_, p, a, b);
  }

  lemma UnionOfTwoCovers(cat: Catalog, p: Page, a: Stored, b: Stored)
    requires StoredValid([a, b])
    requires p in cat.pages ==> p in a.at && a.at[p] == Arr(cat.actions(p))
    requires forall q | q in cat.pages && q != p :: q in b.at && b.at[q] == Arr(cat.actions(q))
    ensures UserCovers(cat, [a, b])
  {
    var roles := [a, b];
    UserCoversIff(cat, roles);
    forall q, x | q in cat.pages && x in cat.actions(q)
      ensures exists i | 0 <= i < |roles| :: x in Get(Load(roles[i]), q)
    {
      if q == p { assert x in Get(Load(roles[0]), q); } else { assert x in Get(Load(roles[1]), q); }
    }
  }

  /** A role with the `users` page is valid, although the documentation of the validation
      leaves that page out. */
  lemma UsersRoleIsValid()
    ensures CatalogValid(CURRENT, Dict([Users], map[Users := [View, AssignAny]]))
  {
    var role: Perms := Dict([], map[]);
    assert role.Valid();
    role := role.Put(Users, [View, AssignAny]);
    assert role.keys == [Users] && role.at == map[Users := [View, AssignAny]];
    PairwiseDistinct([View, AssignAny]);
    assert CURRENT.pages[13] == Users && CurrentActions(Users)[0] == View && CurrentActions(Users)[4] == AssignAny;
  }

  // ---------------------------------------------------------------- the migrations themselves

  /** The new catalog is the old one and a page of five actions. */
  lemma CurrentIs()
    ensures CURRENT.pages == OLD.pages + [Users]
    ensures forall p | p != Users :: CURRENT.actions(p) == OLD.actions(p)
    ensures CURRENT.actions(Users) == [View, Create, Edit, Delete, AssignAny]
  {
  }

  /** Every action of every page is listed by this one role. */
  ghost predicate ListsWholeCatalog(cat: Catalog, d: Stored) {
    forall p | p in cat.pages ::
      p in d.at && d.at[p].Arr? && forall a | a in cat.actions(p) :: a in d.at[p].items
  }

  /** 0041 adds the page at the end of a role that lists the whole catalog and does not have
      the page, and changes no other role. */
  lemma Up41Is(cat: Catalog, d: Stored)
    requires d.Valid()
    ensures var r := Up41(cat, d);
      if Users !in d.at && ListsWholeCatalog(cat, d) then
        r.keys == d.keys + [Users] && r.at == d.at[Users := Arr([View, Create, Edit, Delete])]
      else r == d
  {
    CoversIff(cat, d);
  }

  /** 0042 adds one action at the end of a list that has create or edit and not that action. */
  lemma Up42Is(d: Stored)
    requires d.Valid()
    ensures var r := Up42(d);
      if Users in d.at && d.at[Users].Arr? && AssignAny !in d.at[Users].items
         && (Create in d.at[Users].items || Edit in d.at[Users].items) then
        r.keys == d.keys && r.at == d.at[Users := Arr(d.at[Users].items + [AssignAny])]
      else r == d
  {
  }

  /** The downgrade takes that action out wherever it stands, and nothing else. */
  lemma Down42Is(d: Stored, xs: seq<Action>, ys: seq<Action>)
    requires d.Valid() && Users in d.at && d.at[Users] == Arr(xs + [AssignAny] + ys)
    requires AssignAny !in xs && AssignAny !in ys
    ensures Down42(d).keys == d.keys && Down42(d).at == d.at[Users := Arr(xs + ys)]
  {
    var one := [AssignAny];
    assert (xs + one + ys)[|xs|] == AssignAny;
    KeepAll(xs, one, false);
    KeepSnoc(xs, AssignAny, one, false);
    KeepMore(xs + one, ys, one);
    assert Without(xs + one + ys, AssignAny) == xs + ys;
  }

  lemma {:induction false} KeepMore(xs: seq<Action>, ys: seq<Action>, other: seq<Action>)
    requires forall y | y in ys :: y !in other
    ensures Keep(xs + ys, other, false) == Keep(xs, other, false) + ys
  {
    if ys == [] {
      assert xs + ys == xs;
    } else {
      var init, y := ys[..|ys| - 1], ys[|ys| - 1];
      assert y in ys && forall x | x in init :: x in ys;
      KeepMore(xs, init, other);
      KeepSnoc(xs + init, y, other, false);
      assert xs + ys == xs + init + [y];
    }
  }

  /** An action that a list names more than once is taken out everywhere. */
  lemma Down42Removes(d: Stored, a: Action)
    requires d.Valid() && Users in d.at && d.at[Users].Arr?
    ensures Users in Down42(d).at && Down42(d).at[Users].Arr?
    ensures a in Down42(d).at[Users].items <==> a in d.at[Users].items && a != AssignAny
  {
    KeepMembers(d.at[Users].items, [AssignAny], false);
  }

  /** Who is at admin level after both migrations, in terms of the rows before them. */
  lemma AdminLevelInFull(superadmin: bool, names: seq<string>, roles: seq<Stored>)
    requires StoredValid(roles) && |names| == |roles|
    ensures IsAdminLevel(CURRENT, superadmin, WithNames(names, MigrateAll(OLD, roles))) <==>
      || superadmin
      || "admin" in names
      || ((forall p, a | p in OLD.pages && a in OLD.actions(p) :: exists i | 0 <= i < |roles| :: Lists(roles[i], p, a))
          && (forall a | a in [View, Create, Edit, Delete, AssignAny] ::
                exists i | 0 <= i < |roles| :: GetsOnUsers(roles[i], a)))
  {
    AdminLevelAfter(superadmin, names, roles);
    UserCoversIff(OLD, roles);
    forall p, a, i | 0 <= i < |roles| ensures a in Get(Load(roles[i]), p) <==> Lists(roles[i], p, a) { }
    forall a, i | 0 <= i < |roles| && a in [View, Create, Edit, Delete, AssignAny]
      ensures GrantsUsers(OLD, roles[i], a) <==> GetsOnUsers(roles[i], a)
    {
      GrantsOnUsers(roles[i], a);
    }
    CurrentIs();
  }

  ghost predicate Lists(d: Stored, p: Page, a: Action) { p in d.at && d.at[p].Arr? && a in d.at[p].items }

  ghost predicate GetsOnUsers(d: Stored, a: Action) {
    || Lists(d, Users, a)
    || (a == AssignAny && (Lists(d, Users, Create) || Lists(d, Users, Edit)))
    || (Users !in d.at && ListsWholeCatalog(OLD, d))
  }

  lemma GrantsOnUsers(d: Stored, a: Action)
    requires a in [View, Create, Edit, Delete, AssignAny]
    ensures GrantsUsers(OLD, d, a) <==> GetsOnUsers(d, a)
  {
    assert USERS_ACTIONS + [AssignAny] == [View, Create, Edit, Delete, AssignAny];
    assert Covers(OLD, d) <==> ListsWholeCatalog(OLD, d) by { CoversIff(OLD, d); }
  }

  lemma CoversIff(cat: Catalog, d: Stored)
    ensures Covers(cat, d) <==> ListsWholeCatalog(cat, d)
  {
    forall p | p in cat.pages
      ensures ListsAll(d, p, cat.actions(p)) <==>
        p in d.at && d.at[p].Arr? && forall a | a in cat.actions(p) :: a in d.at[p].items
    {
    }
  }
}

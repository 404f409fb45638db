/** Permissions and entitlements: the service's evaluation and the second one in auth-core, over the same tables. */
module Rbac {
  import opened Prelude
  import Json

  type Id = string

  datatype Entitlement = Entitlement(
    id: Id,
    key: string,
    enabled: bool,
    value: Json.Value,
    userId: Option<Id>,
    groupId: Option<Id>,
    organizationId: Option<Id>,
    expiresAt: Option<int>,
    createdAt: int)

  /** Pairs are (user, role), (role, permission), (user, group) and (group, role); a group maps to its organization. */
  datatype Db = Db(
    userRoles: set<(Id, Id)>,
    rolePermissions: set<(Id, Id)>,
    permissions: map<Id, string>,
    groups: map<Id, Id>,
    groupMemberships: set<(Id, Id)>,
    groupRoles: set<(Id, Id)>,
    organizations: set<Id>,
    entitlements: set<Entitlement>)

  /** The schema's foreign key from an entitlement to its organization. */
  ghost predicate ForeignKeys(db: Db) {
    forall e :: e in db.entitlements && e.organizationId.Some? ==> e.organizationId.value in db.organizations
  }

  ghost predicate NoTies(db: Db) {
    forall d, e :: d in db.entitlements && e in db.entitlements && d.createdAt == e.createdAt ==> d == e
  }

  datatype Context = Context(organizationId: Option<string>, groupId: Option<string>)

  /** JavaScript truthiness of an optional id: the empty string counts as absent. */
  predicate Given(id: Option<string>) {
    id.Some? && id.value != ""
  }

  // ----- permissions -----

  predicate InContext(db: Db, ctx: Context, g: Id)
    requires g in db.groups
  {
    && (Given(ctx.groupId) ==> g == ctx.groupId.value)
    && (Given(ctx.organizationId) ==> db.groups[g] == ctx.organizationId.value)
  }

  predicate ReachesGroup(db: Db, user: Id, ctx: Context, g: Id) {
    g in db.groups && (user, g) in db.groupMemberships && InContext(db, ctx, g)
  }

  function DirectRoles(db: Db, user: Id): set<Id> {
    set ur | ur in db.userRoles && ur.0 == user :: ur.1
  }

  function RolesOfGroups(db: Db, user: Id, ctx: Context): set<Id> {
    set gr | gr in db.groupRoles && ReachesGroup(db, user, ctx, gr.0) :: gr.1
  }

  function KeysOfRoles(db: Db, roles: set<Id>): set<string> {
    set rp | rp in db.rolePermissions && rp.0 in roles && rp.1 in db.permissions :: db.permissions[rp.1]
  }

  function ListPermissionKeys(db: Db, user: Id, ctx: Context): set<string> {
    KeysOfRoles(db, DirectRoles(db, user)) + KeysOfRoles(db, RolesOfGroups(db, user, ctx))
  }

  /** The decision of authorizationCheck on an uncached read. */
  predicate Allowed(db: Db, user: Id, ctx: Context, resource: string, action: string) {
    var keys := ListPermissionKeys(db, user, ctx);
    resource + ":" + action in keys || resource + ":all" in keys || "*" in keys
  }

  /** A part of the context admits an id when it is absent, empty, or that id. */
  predicate Admits(asked: Option<string>, id: Id) {
    asked == None || asked == Some("") || asked == Some(id)
  }

  /** The user belongs to a group that both parts of the context admit. */
  ghost predicate MemberWithin(db: Db, user: Id, ctx: Context, g: Id) {
    && (user, g) in db.groupMemberships && g in db.groups
    && Admits(ctx.groupId, g) && Admits(ctx.organizationId, db.groups[g])
  }

  ghost predicate HoldsRole(db: Db, user: Id, ctx: Context, role: Id) {
    (user, role) in db.userRoles || exists g :: (g, role) in db.groupRoles && MemberWithin(db, user, ctx, g)
  }

  /**
   One grant: the user holds a role, directly or through a group in context, that carries a permission of this key.
   */
  ghost predicate Grants(db: Db, user: Id, ctx: Context, key: string) {
    exists role, permission ::
      && (role, permission) in db.rolePermissions
      && permission in db.permissions && db.permissions[permission] == key
      && HoldsRole(db, user, ctx, role)
  }

  lemma ReachesExactly(db: Db, user: Id, ctx: Context, g: Id)
    ensures ReachesGroup(db, user, ctx, g) <==> MemberWithin(db, user, ctx, g)
  {
  }

  lemma HoldsRoleExactly(db: Db, user: Id, ctx: Context, role: Id)
    ensures HoldsRole(db, user, ctx, role) <==> role in DirectRoles(db, user) || role in RolesOfGroups(db, user, ctx)
  {
    if (user, role) in db.userRoles {
      assert (user, role).0 == user && (user, role).1 == role;
    }
    if g :| (g, role) in db.groupRoles && MemberWithin(db, user, ctx, g) {
      ReachesExactly(db, user, ctx, g);
      assert (g, role).0 == g && (g, role).1 == role;
    }
    if role in RolesOfGroups(db, user, ctx) {
      var gr :| gr in db.groupRoles && ReachesGroup(db, user, ctx, gr.0) && gr.1 == role;
      ReachesExactly(db, user, ctx, gr.0);
      assert (gr.0, role) in db.groupRoles;
    }
  }

  /** A permission key is listed exactly when it is granted. */
  lemma PermissionsAreGrants(db: Db, user: Id, ctx: Context, key: string)
    ensures key in ListPermissionKeys(db, user, ctx) <==> Grants(db, user, ctx, key)
  {
    if Grants(db, user, ctx, key) {
      var role, permission :| (role, permission) in db.rolePermissions
                              && permission in db.permissions && db.permissions[permission] == key
                              && HoldsRole(db, user, ctx, role);
      HoldsRoleExactly(db, user, ctx, role);
      var rp := (role, permission);
      assert rp.0 == role && rp.1 == permission;
    }
    if key in ListPermissionKeys(db, user, ctx) {
      var roles := DirectRoles(db, user) + RolesOfGroups(db, user, ctx);
      var rp :| rp in db.rolePermissions && rp.0 in roles && rp.1 in db.permissions && db.permissions[rp.1] == key;
      HoldsRoleExactly(db, user, ctx, rp.0);
      assert (rp.0, rp.1) in db.rolePermissions;
    }
  }

  lemma AllowedGrants(db: Db, user: Id, ctx: Context, resource: string, action: string)
    ensures Allowed(db, user, ctx, resource, action) <==>
            || Grants(db, user, ctx, resource + ":" + action)
            || Grants(db, user, ctx, resource + ":all")
            || Grants(db, user, ctx, "*")
  {
    PermissionsAreGrants(db, user, ctx, resource + ":" + action);
    PermissionsAreGrants(db, user, ctx, resource + ":all");
    PermissionsAreGrants(db, user, ctx, "*");
  }

  /** Asked without a context, the listing is the union of the listings narrowed to each of the user's groups. */
  lemma UnfilteredIsTheUnion(db: Db, user: Id, key: string)
    ensures key in ListPermissionKeys(db, user, Context(None, None)) <==>
            key in KeysOfRoles(db, DirectRoles(db, user)) ||
            exists g :: ReachesGroup(db, user, Context(None, None), g) &&
                        key in ListPermissionKeys(db, user, Context(None, Some(g)))
  {
    var everywhere := Context(None, None);
    if key in KeysOfRoles(db, RolesOfGroups(db, user, everywhere)) {
      var rp :| rp in db.rolePermissions && rp.0 in RolesOfGroups(db, user, everywhere)
                && rp.1 in db.permissions && db.permissions[rp.1] == key;
      var gr :| gr in db.groupRoles && ReachesGroup(db, user, everywhere, gr.0) && gr.1 == rp.0;
      assert ReachesGroup(db, user, Context(None, Some(gr.0)), gr.0);
      assert rp.0 in RolesOfGroups(db, user, Context(None, Some(gr.0)));
      assert key in ListPermissionKeys(db, user, Context(None, Some(gr.0)));
    }
    if g :| ReachesGroup(db, user, everywhere, g) && key in ListPermissionKeys(db, user, Context(None, Some(g))) {
      NarrowingOnlyRemoves(db, user, Context(None, Some(g)));
    }
  }

  lemma NarrowingOnlyRemoves(db: Db, user: Id, ctx: Context)
    ensures ListPermissionKeys(db, user, ctx) <= ListPermissionKeys(db, user, Context(None, None))
  {
    assert RolesOfGroups(db, user, ctx) <= RolesOfGroups(db, user, Context(None, None));
  }

  // ----- entitlements, as the repository finds them -----

  predicate Active(e: Entitlement, now: int) {
    e.enabled && (e.expiresAt.None? || e.expiresAt.value > now)
  }

  datatype Scope = User | Group | Organization

  datatype Found = Found(row: Entitlement, scope: Scope)

  function UserRows(db: Db, user: Id, key: string, now: int): set<Entitlement> {
    set e | e in db.entitlements && e.key == key && e.userId == Some(user) && Active(e, now)
  }

  function GroupRows(db: Db, user: Id, key: string, ctx: Context, now: int): set<Entitlement> {
    set e | e in db.entitlements && e.key == key && e.groupId.Some? && ReachesGroup(db, user, ctx, e.groupId.value)
            && Active(e, now)
  }

  predicate BelongsTo(db: Db, user: Id, organization: Id) {
    exists m :: m in db.groupMemberships && m.0 == user && m.1 in db.groups && db.groups[m.1] == organization
  }

  function OrganizationRows(db: Db, key: string, organization: Id, now: int): set<Entitlement> {
    set e | e in db.entitlements && e.key == key && e.organizationId == Some(organization) && Active(e, now)
  }

  /** order by createdAt desc limit 1: which of several equally new rows comes first is up to the database. */
  ghost predicate PicksNewest(pick: set<Entitlement> -> Entitlement) {
    forall rows :: rows != {} ==> pick(rows) in rows && forall e :: e in rows ==> e.createdAt <= pick(rows).createdAt
  }

  function FindEntitlement(pick: set<Entitlement> -> Entitlement, db: Db, user: Id, key: string, ctx: Context, now: int)
    : Option<Found>
  {
    var userRows := UserRows(db, user, key, now);
    if userRows != {} then Some(Found(pick(userRows), User)) else
    var groupRows := GroupRows(db, user, key, ctx, now);
    if groupRows != {} then Some(Found(pick(groupRows), Group)) else
    if !Given(ctx.organizationId) then None else
    if !BelongsTo(db, user, ctx.organizationId.value) then None else
    var organizationRows := OrganizationRows(db, key, ctx.organizationId.value, now);
    if organizationRows != {} then Some(Found(pick(organizationRows), Organization)) else None
  }

  /**
   Everything that could entitle the user: an enabled, unexpired row of this key, for the user, for a group the user is
   in and the context admits, or for the organization asked for when the user is in one of its groups.
   */
  ghost predicate Candidate(db: Db, user: Id, key: string, ctx: Context, now: int, f: Found) {
    && f.row in db.entitlements && f.row.key == key
    && f.row.enabled && (f.row.expiresAt.None? || now < f.row.expiresAt.value)
    && match f.scope
       case User => f.row.userId == Some(user)
       case Group => f.row.groupId.Some? && MemberWithin(db, user, ctx, f.row.groupId.value)
       case Organization =>
         && ctx.organizationId != None && ctx.organizationId != Some("") && f.row.organizationId == ctx.organizationId
         && exists g :: (user, g) in db.groupMemberships && g in db.groups && Some(db.groups[g]) == ctx.organizationId
  }

  /** A row for the user before one for a group before one for an organization, then the newer row. */
  predicate AtLeast(f: Found, g: Found) {
    match (f.scope, g.scope)
    case (User, Group) => true
    case (User, Organization) => true
    case (Group, Organization) => true
    case _ => f.scope == g.scope && f.row.createdAt >= g.row.createdAt
  }

  lemma BelongsExactly(db: Db, user: Id, organization: Id)
    ensures BelongsTo(db, user, organization) <==>
            exists g :: (user, g) in db.groupMemberships && g in db.groups && db.groups[g] == organization
  {
    if g :| (user, g) in db.groupMemberships && g in db.groups && db.groups[g] == organization {
      var m := (user, g);
      assert m.0 == user && m.1 == g;
    }
    if BelongsTo(db, user, organization) {
      var m :| m in db.groupMemberships && m.0 == user && m.1 in db.groups && db.groups[m.1] == organization;
      assert (user, m.1) in db.groupMemberships;
    }
  }

  lemma FoundIsCandidate(pick: set<Entitlement> -> Entitlement, db: Db, user: Id, key: string, ctx: Context, now: int)
    requires PicksNewest(pick)
    ensures var found := FindEntitlement(pick, db, user, key, ctx, now);
            found.Some? ==> Candidate(db, user, key, ctx, now, found.value)
  {
    var found := FindEntitlement(pick, db, user, key, ctx, now);
    if found.Some? {
      match found.value.scope
      case User =>
      case Group => ReachesExactly(db, user, ctx, found.value.row.groupId.value);
      case Organization => BelongsExactly(db, user, ctx.organizationId.value);
    }
  }

  /** findEntitlement answers exactly when there is a candidate, and with one no other candidate precedes. */
  lemma FindsTheBest(pick: set<Entitlement> -> Entitlement, db: Db, user: Id, key: string, ctx: Context, now: int)
    requires PicksNewest(pick)
    ensures FindEntitlement(pick, db, user, key, ctx, now).Some? <==>
            exists f :: Candidate(db, user, key, ctx, now, f)
    ensures var found := FindEntitlement(pick, db, user, key, ctx, now);
            found.Some? ==>
              && Candidate(db, user, key, ctx, now, found.value)
              && forall f :: Candidate(db, user, key, ctx, now, f) ==> AtLeast(found.value, f)
  {
    var found := FindEntitlement(pick, db, user, key, ctx, now);
    FoundIsCandidate(pick, db, user, key, ctx, now);
    forall f | Candidate(db, user, key, ctx, now, f) ensures found.Some? && AtLeast(found.value, f) {
      match f.scope
      case User => assert f.row in UserRows(db, user, key, now);
      case Group =>
        ReachesExactly(db, user, ctx, f.row.groupId.value);
        assert f.row in GroupRows(db, user, key, ctx, now);
      case Organization =>
        BelongsExactly(db, user, ctx.organizationId.value);
        assert f.row in OrganizationRows(db, key, ctx.organizationId.value, now);
    }
  }

  /** With no two rows equally new, the best candidate is the only answer, whichever way the database breaks ties. */
  lemma BestIsUnique(pick: set<Entitlement> -> Entitlement, db: Db, user: Id, key: string, ctx: Context, now: int,
      best: Found)
    requires PicksNewest(pick) && NoTies(db)
    requires Candidate(db, user, key, ctx, now, best)
    requires forall f :: Candidate(db, user, key, ctx, now, f) ==> AtLeast(best, f)
    ensures FindEntitlement(pick, db, user, key, ctx, now) == Some(best)
  {
    FindsTheBest(pick, db, user, key, ctx, now);
    var found := FindEntitlement(pick, db, user, key, ctx, now).value;
    assert AtLeast(found, best) && AtLeast(best, found);
  }

  // ----- entitlements, as auth-core resolves them -----

  /** The clock as auth-core reads it: once for the queries and again after each of the three. */
  datatype Readings = Readings(query: int, afterUser: int, afterGroup: int, afterOrganization: int)

  predicate IsEntitlementActive(expiresAt: Option<int>, now: int) {
    expiresAt.None? || expiresAt.value > now
  }

  /** No expiry falls between the query and a later reading; one instant for all four readings is the plain case. */
  ghost predicate Steady(db: Db, t: Readings) {
    forall e :: e in db.entitlements && e.expiresAt.Some? && e.expiresAt.value > t.query ==>
      e.expiresAt.value > t.afterUser && e.expiresAt.value > t.afterGroup && e.expiresAt.value > t.afterOrganization
  }

  datatype Resolved = Resolved(value: Json.Value, scope: Scope)

  /** normalizeEntitlementValue: booleans and plain objects pass, anything else is wrapped. */
  function Normalize(v: Json.Value): Json.Value {
    if v.Bool? || v.Obj? then v else Json.Obj([Json.Member("value", v)])
  }

  function JoinedOrganizationRows(db: Db, key: string, organization: Id, now: int): set<Entitlement> {
    set e | e in db.entitlements && e.key == key && e.enabled && IsEntitlementActive(e.expiresAt, now)
            && e.organizationId.Some? && e.organizationId.value in db.organizations
            && e.organizationId.value == organization
  }

  function ResolveEntitlementForKey(pick: set<Entitlement> -> Entitlement, db: Db, user: Id, key: string, ctx: Context,
                                    t: Readings): Option<Resolved>
  {
    var userRows := UserRows(db, user, key, t.query);
    if userRows != {} && IsEntitlementActive(pick(userRows).expiresAt, t.afterUser) then
      Some(Resolved(Normalize(pick(userRows).value), User)) else
    var groupRows := GroupRows(db, user, key, ctx, t.query);
    if groupRows != {} && IsEntitlementActive(pick(groupRows).expiresAt, t.afterGroup) then
      Some(Resolved(Normalize(pick(groupRows).value), Group)) else
    if !Given(ctx.organizationId) then None else
    if !BelongsTo(db, user, ctx.organizationId.value) then None else
    var organizationRows := JoinedOrganizationRows(db, key, ctx.organizationId.value, t.query);
    if organizationRows != {} && IsEntitlementActive(pick(organizationRows).expiresAt, t.afterOrganization) then
      Some(Resolved(Normalize(pick(organizationRows).value), Organization)) else None
  }

  function AsResolved(f: Option<Found>): Option<Resolved> {
    if f.None? then None else Some(Resolved(Normalize(f.value.row.value), f.value.scope))
  }

  lemma SamePick(pick: set<Entitlement> -> Entitlement, pick': set<Entitlement> -> Entitlement, db: Db,
      rows: set<Entitlement>)
    requires PicksNewest(pick) && PicksNewest(pick') && NoTies(db)
    requires rows != {} && rows <= db.entitlements
    ensures pick(rows) == pick'(rows) && pick(rows) in rows
  {
    assert pick(rows).createdAt == pick'(rows).createdAt;
  }

  /** The second implementation gives the first one's answer. */
  lemma ResolveAgrees(pick: set<Entitlement> -> Entitlement, pick': set<Entitlement> -> Entitlement,
                      db: Db, user: Id, key: string, ctx: Context, t: Readings)
    requires PicksNewest(pick) && PicksNewest(pick') && NoTies(db) && ForeignKeys(db) && Steady(db, t)
    ensures ResolveEntitlementForKey(pick', db, user, key, ctx, t) ==
            AsResolved(FindEntitlement(pick, db, user, key, ctx, t.query))
  {
    var userRows := UserRows(db, user, key, t.query);
    var groupRows := GroupRows(db, user, key, ctx, t.query);
    if userRows != {} {
      SamePick(pick, pick', db, userRows);
    } else if groupRows != {} {
      SamePick(pick, pick', db, groupRows);
    } else if Given(ctx.organizationId) {
      var rows := OrganizationRows(db, key, ctx.organizationId.value, t.query);
      assert JoinedOrganizationRows(db, key, ctx.organizationId.value, t.query) == rows;
      if rows != {} {
        SamePick(pick, pick', db, rows);
      }
    }
  }

  // ----- the snapshots -----

  datatype Snapshot = Snapshot(permissions: set<string>, entitlements: map<string, Json.Value>)

  function ListAllActiveEntitlementKeys(db: Db, now: int): set<string> {
    set e | e in db.entitlements && Active(e, now) :: e.key
  }

  function EnabledKeys(db: Db): set<string> {
    set e | e in db.entitlements && e.enabled :: e.key
  }

  /** Every key findEntitlement resolves, with its normalised value, except a key that names the prototype. */
  ghost predicate HoldsExactly(m: map<string, Json.Value>, resolve: string -> Option<Json.Value>, keys: set<string>) {
    && (forall key :: key in m <==> key in keys && key != PROTO && resolve(key).Some?)
    && (forall key :: key in m ==> resolve(key) == Some(m[key]))
  }

  /** The clock as each key's resolution reads it. */
  type Clock = string -> int

  function ServiceValue(pick: set<Entitlement> -> Entitlement, db: Db, user: Id, ctx: Context, clock: Clock)
    : string -> Option<Json.Value>
  {
    key => var f := FindEntitlement(pick, db, user, key, ctx, clock(key));
           if f.Some? then Some(Normalize(f.value.row.value)) else None
  }

  function CoreValue(pick: set<Entitlement> -> Entitlement, db: Db, user: Id, ctx: Context, t: string -> Readings)
    : string -> Option<Json.Value>
  {
    key => var r := ResolveEntitlementForKey(pick, db, user, key, ctx, t(key));
           if r.Some? then Some(r.value.value) else None
  }

  method FillMap(keys: set<string>, resolve: string -> Option<Json.Value>) returns (m: map<string, Json.Value>)
    ensures HoldsExactly(m, resolve, keys)
  {
    m := map[];
    var rest := keys;
    while rest != {}
      invariant rest <= keys && HoldsExactly(m, resolve, keys - rest)
      decreases rest
    {
      var key :| key in rest;
      var resolved := resolve(key);
      if resolved.Some? {
        m := Assign(m, key, resolved.value);
      }
      rest := rest - {key};
    }
    assert keys - rest == keys;
  }

  /**
   A snapshot lists the user's permissions, and each key the service resolves at that key's reading of the clock with
   its value, save the prototype's.
   */
  ghost predicate IsSnapshot(s: Snapshot, pick: set<Entitlement> -> Entitlement, db: Db, user: Id, ctx: Context,
      clock: Clock)
  {
    && s.permissions == ListPermissionKeys(db, user, ctx)
    && (forall key :: key in s.entitlements <==>
                      key != PROTO && FindEntitlement(pick, db, user, key, ctx, clock(key)).Some?)
    && (forall key :: key in s.entitlements ==>
          s.entitlements[key] == Normalize(FindEntitlement(pick, db, user, key, ctx, clock(key)).value.row.value))
  }

  /** An entitlement in a snapshot comes from a best row; truth values and objects as they are, others wrapped. */
  lemma SnapshotValue(s: Snapshot, pick: set<Entitlement> -> Entitlement, db: Db, user: Id, ctx: Context, clock: Clock,
                      key: string) returns (best: Found)
    requires PicksNewest(pick) && IsSnapshot(s, pick, db, user, ctx, clock) && key in s.entitlements
    ensures Candidate(db, user, key, ctx, clock(key), best)
    ensures forall f :: Candidate(db, user, key, ctx, clock(key), f) ==> AtLeast(best, f)
    ensures s.entitlements[key] == match best.row.value
                                   case Bool(b) => Json.Bool(b)
                                   case Obj(members) => Json.Obj(members)
                                   case other => Json.Obj([Json.Member("value", other)])
  {
    FindsTheBest(pick, db, user, key, ctx, clock(key));
    best := FindEntitlement(pick, db, user, key, ctx, clock(key)).value;
  }

  /** What is active later was active before: the keys listed first are all there is to try. */
  lemma LaterIsListed(pick: set<Entitlement> -> Entitlement, db: Db, user: Id, key: string, ctx: Context, listed: int,
      now: int)
    requires PicksNewest(pick) && listed <= now && FindEntitlement(pick, db, user, key, ctx, now).Some?
    ensures key in ListAllActiveEntitlementKeys(db, listed)
  {
    FindsTheBest(pick, db, user, key, ctx, now);
    var row := FindEntitlement(pick, db, user, key, ctx, now).value.row;
    assert row in db.entitlements && row.key == key && Active(row, listed);
  }

  /** RBACService.getAuthorizationSnapshot: it tries the keys with an active row, reading the clock anew for each. */
  method GetAuthorizationSnapshot(pick: set<Entitlement> -> Entitlement, db: Db, user: Id, ctx: Context, listed: int,
                                  clock: Clock) returns (s: Snapshot)
    requires PicksNewest(pick) && forall key :: listed <= clock(key)
    ensures IsSnapshot(s, pick, db, user, ctx, clock)
  {
    var permissions := ListPermissionKeys(db, user, ctx);
    var keys := ListAllActiveEntitlementKeys(db, listed);
    var entitlements := FillMap(keys, ServiceValue(pick, db, user, ctx, clock));
    s := Snapshot(permissions, entitlements);
    forall key | FindEntitlement(pick, db, user, key, ctx, clock(key)).Some? ensures key in keys {
      LaterIsListed(pick, db, user, key, ctx, listed, clock(key));
    }
    assert forall key :: key in entitlements ==>
      ServiceValue(pick, db, user, ctx, clock)(key) == Some(entitlements[key]);
  }

  ghost predicate AllSteady(db: Db, t: string -> Readings) {
    forall key :: Steady(db, t(key))
  }

  /**
   IdpAuthService.getAuthorizationSnapshot, which tries every enabled key, expired or not, gives the service's snapshot.
   */
  method GetCoreSnapshot(pick: set<Entitlement> -> Entitlement, db: Db, user: Id, ctx: Context, t: string -> Readings)
    returns (s: Snapshot)
    requires PicksNewest(pick)
    ensures s.permissions == ListPermissionKeys(db, user, ctx)
    ensures HoldsExactly(s.entitlements, CoreValue(pick, db, user, ctx, t), EnabledKeys(db))
    ensures NoTies(db) && ForeignKeys(db) && AllSteady(db, t) ==>
              forall service :: PicksNewest(service) ==> IsSnapshot(s, service, db, user, ctx, key => t(key).query)
  {
    var permissions := ListPermissionKeys(db, user, ctx);
    var keys := EnabledKeys(db);
    var entitlements := FillMap(keys, CoreValue(pick, db, user, ctx, t));
    s := Snapshot(permissions, entitlements);
    if NoTies(db) && ForeignKeys(db) && AllSteady(db, t) {
      forall service | PicksNewest(service) ensures IsSnapshot(s, service, db, user, ctx, key => t(key).query) {
        CoreIsSnapshot(service, pick, db, user, ctx, t, s);
      }
    }
  }

  lemma ResolvedKeyIsEnabled(pick: set<Entitlement> -> Entitlement, db: Db, user: Id, key: string, ctx: Context,
      t: Readings)
    requires ResolveEntitlementForKey(pick, db, user, key, ctx, t).Some?
    ensures key in EnabledKeys(db)
  {
    var organization := if Given(ctx.organizationId) then ctx.organizationId.value else "";
    var rows := UserRows(db, user, key, t.query) + GroupRows(db, user, key, ctx, t.query)
                + JoinedOrganizationRows(db, key, organization, t.query);
    var e :| e in rows;
    assert e in db.entitlements && e.enabled && e.key == key;
  }

  lemma CoreIsSnapshot(pick: set<Entitlement> -> Entitlement, pick': set<Entitlement> -> Entitlement,
                       db: Db, user: Id, ctx: Context, t: string -> Readings, s: Snapshot)
    requires PicksNewest(pick) && PicksNewest(pick') && NoTies(db) && ForeignKeys(db) && AllSteady(db, t)
    requires s.permissions == ListPermissionKeys(db, user, ctx)
    requires HoldsExactly(s.entitlements, CoreValue(pick', db, user, ctx, t), EnabledKeys(db))
    ensures IsSnapshot(s, pick, db, user, ctx, key => t(key).query)
  {
    forall key
      ensures key in s.entitlements <==> key != PROTO && FindEntitlement(pick, db, user, key, ctx, t(key).query).Some?
      ensures key in s.entitlements ==>
                s.entitlements[key] ==
                Normalize(FindEntitlement(pick, db, user, key, ctx, t(key).query).value.row.value)
    {
      CoreMember(pick, pick', db, user, ctx, t, s.entitlements, key);
    }
  }

  lemma CoreMember(pick: set<Entitlement> -> Entitlement, pick': set<Entitlement> -> Entitlement,
                   db: Db, user: Id, ctx: Context, t: string -> Readings, m: map<string, Json.Value>, key: string)
    requires PicksNewest(pick) && PicksNewest(pick') && NoTies(db) && ForeignKeys(db) && Steady(db, t(key))
    requires HoldsExactly(m, CoreValue(pick', db, user, ctx, t), EnabledKeys(db))
    ensures key in m <==> key != PROTO && FindEntitlement(pick, db, user, key, ctx, t(key).query).Some?
    ensures key in m ==> m[key] == Normalize(FindEntitlement(pick, db, user, key, ctx, t(key).query).value.row.value)
  {
    ResolveAgrees(pick, pick', db, user, key, ctx, t(key));
    var resolved := ResolveEntitlementForKey(pick', db, user, key, ctx, t(key));
    if resolved.Some? {
      ResolvedKeyIsEnabled(pick', db, user, key, ctx, t(key));
    }
    assert CoreValue(pick', db, user, ctx, t)(key) == if resolved.Some? then Some(resolved.value.value) else None;
  }

  /** Two snapshots with the same readings of the clock are equal, the service's and auth-core's among them. */
  lemma SnapshotIsUnique(pick: set<Entitlement> -> Entitlement, db: Db, user: Id, ctx: Context, clock: Clock,
                         s: Snapshot, s': Snapshot)
    requires IsSnapshot(s, pick, db, user, ctx, clock) && IsSnapshot(s', pick, db, user, ctx, clock)
    ensures s == s'
  {
    assert s.entitlements == s'.entitlements;
  }
}

/**
 The cache in front of the RBAC checks: its keys, its time to live, and what checks and invalidations interleaved can
 serve.
 */
module RbacCache {
  import opened Prelude
  import opened Rbac
  import Json

  // ----- requests and their answers -----

  datatype Kind = Auth | Ent

  /** A quantity is kept as its decimal text. */
  datatype Request =
    | AuthorizationRequest(userId: string, resource: string, action: string,
                           organizationId: Option<string>, groupId: Option<string>)
    | EntitlementRequest(userId: string, key: string,
                         organizationId: Option<string>, groupId: Option<string>, quantity: Option<string>)

  datatype Answer =
    | Authorization(allowed: bool, permissionKey: string, source: Option<string>)
    | NotEntitled
    | LimitExceeded(limit: real)
    | Entitled(value: Json.Value, scope: Scope)

  /** Database row choice, and JavaScript's Number on a quantity's text and on a limit; None is NaN or infinite. */
  datatype Env = Env(pick: set<Entitlement> -> Entitlement, amount: string -> real, number: Json.Value -> Option<real>)

  function KindOf(r: Request): Kind {
    if r.AuthorizationRequest? then Auth else Ent
  }

  function LimitOf(env: Env, v: Json.Value): Option<real> {
    if v.Obj? then MemberLimit(env, v.members) else None
  }

  function MemberLimit(env: Env, ms: seq<Json.Member>): Option<real> {
    if |ms| == 0 then None
    else if ms[0].key == "limit" then env.number(ms[0].value)
    else MemberLimit(env, ms[1..])
  }

  /** The uncached answer of authorizationCheck and entitlementCheck. */
  function Evaluate(env: Env, db: Db, r: Request, now: int): Answer {
    var ctx := Context(r.organizationId, r.groupId);
    match r
    case AuthorizationRequest(user, resource, action, _, _) =>
      var allowed := Allowed(db, user, ctx, resource, action);
      Authorization(allowed, resource + ":" + action, if allowed then Some("rbac") else None)
    case EntitlementRequest(user, key, _, _, quantity) =>
      var found := FindEntitlement(env.pick, db, user, key, ctx, now);
      if found.None? then NotEntitled else
      var limit := LimitOf(env, found.value.row.value);
      if quantity.Some? && limit.Some? && env.amount(quantity.value) > limit.value then LimitExceeded(limit.value)
      else Entitled(found.value.row.value, found.value.scope)
  }

  /**
   A check allows exactly when some role of the user, held directly or through a membership the context admits, carries
   the permission for the resource and the action, for all of the resource, or for everything.
   */
  lemma AuthorizationExactly(env: Env, db: Db, user: Id, resource: string, action: string,
                             organizationId: Option<string>, groupId: Option<string>, now: int)
    ensures var answer := Evaluate(env, db, AuthorizationRequest(user, resource, action, organizationId, groupId), now);
            && answer.Authorization?
            && (answer.allowed <==>
                  exists role, permission ::
                    && (role, permission) in db.rolePermissions && permission in db.permissions
                    && (|| db.permissions[permission] == resource + ":" + action
                        || db.permissions[permission] == resource + ":all"
                        || db.permissions[permission] == "*")
                    && (|| (user, role) in db.userRoles
                        || exists g ::
                             && (g, role) in db.groupRoles && (user, g) in db.groupMemberships && g in db.groups
                             && (groupId == None || groupId == Some("") || groupId == Some(g))
                             && (organizationId == None || organizationId == Some("")
                                 || organizationId == Some(db.groups[g]))))
            && answer.permissionKey == resource + ":" + action
            && answer.source == (if answer.allowed then Some("rbac") else None)
  {
    AllowedGrants(db, user, Context(organizationId, groupId), resource, action);
    hide Allowed;
  }

  /** The quantity asked for is above the limit the entitlement's value carries. */
  ghost predicate Exceeds(env: Env, quantity: Option<string>, value: Json.Value, limit: real) {
    && quantity.Some? && value.Obj?
    && exists i ::
         && 0 <= i < |value.members| && value.members[i].key == "limit"
         && (forall j :: 0 <= j < i ==> value.members[j].key != "limit")
         && env.number(value.members[i].value) == Some(limit) && limit < env.amount(quantity.value)
  }

  lemma {:induction false} MemberLimitExactly(env: Env, ms: seq<Json.Member>, limit: real)
    ensures MemberLimit(env, ms) == Some(limit) <==>
            exists i :: 0 <= i < |ms| && ms[i].key == "limit" && (forall j :: 0 <= j < i ==> ms[j].key != "limit")
                        && env.number(ms[i].value) == Some(limit)
  {
    if |ms| != 0 && ms[0].key != "limit" {
      var t := ms[1..];
      assert forall i :: 0 <= i < |t| ==> t[i] == ms[i + 1];
      MemberLimitExactly(env, t, limit);
      if MemberLimit(env, t) == Some(limit) {
        var i :| 0 <= i < |t| && t[i].key == "limit" && (forall j :: 0 <= j < i ==> t[j].key != "limit")
                 && env.number(t[i].value) == Some(limit);
        assert ms[i + 1].key == "limit" && forall j :: 0 < j < i + 1 ==> ms[j] == t[j - 1];
      }
      if i :| 0 <= i < |ms| && ms[i].key == "limit" && (forall j :: 0 <= j < i ==> ms[j].key != "limit")
              && env.number(ms[i].value) == Some(limit) {
        assert t[i - 1] == ms[i];
      }
    }
  }

  /**
   An entitlement check finds nothing exactly when no row entitles the user; otherwise it answers from a best such row,
   with its value and scope unless the quantity asked for is above the row's limit.
   */
  lemma EntitlementExactly(env: Env, db: Db, user: Id, key: string, organizationId: Option<string>,
                           groupId: Option<string>, quantity: Option<string>, now: int)
    requires PicksNewest(env.pick)
    ensures var ctx := Context(organizationId, groupId);
            var answer := Evaluate(env, db, EntitlementRequest(user, key, organizationId, groupId, quantity), now);
            && (answer.NotEntitled? <==> forall f :: !Candidate(db, user, key, ctx, now, f))
            && (!answer.NotEntitled? ==>
                  exists f ::
                    && Candidate(db, user, key, ctx, now, f)
                    && (forall g :: Candidate(db, user, key, ctx, now, g) ==> AtLeast(f, g))
                    && (answer == Entitled(f.row.value, f.scope)
                        <==> forall limit :: !Exceeds(env, quantity, f.row.value, limit))
                    && (forall limit :: answer == LimitExceeded(limit) <==> Exceeds(env, quantity, f.row.value, limit)))
  {
    var ctx := Context(organizationId, groupId);
    FindsTheBest(env.pick, db, user, key, ctx, now);
    var found := FindEntitlement(env.pick, db, user, key, ctx, now);
    if found.Some? {
      var value := found.value.row.value;
      forall limit ensures LimitOf(env, value) == Some(limit) <==>
                           exists i :: value.Obj? && 0 <= i < |value.members| && value.members[i].key == "limit"
                                       && (forall j :: 0 <= j < i ==> value.members[j].key != "limit")
                                       && env.number(value.members[i].value) == Some(limit)
      {
        if value.Obj? {
          MemberLimitExactly(env, value.members, limit);
        }
      }
      assert forall limit :: Exceeds(env, quantity, value, limit) <==>
                             quantity.Some? && LimitOf(env, value) == Some(limit) && limit < env.amount(quantity.value);
      assert Candidate(db, user, key, ctx, now, found.value);
    }
  }

  // ----- keys -----

  function Replaced(s: string): (r: string)
    ensures |r| == |s| && ':' !in r
  {
    seq(|s|, i requires 0 <= i < |s| => if s[i] == ':' || IsSpace(s[i]) then '_' else s[i])
  }

  function NormalizeKeyPart(value: Option<string>): (r: string)
    ensures ':' !in r
  {
    if value.None? then "_" else Replaced(Trim(value.value))
  }

  function KindText(kind: Kind): string {
    if kind == Auth then "auth" else "ent"
  }

  /** The request as its key sees it: the kind, then the five normalised parts. */
  function KeyParts(r: Request): (parts: seq<string>)
    ensures |parts| == 6 && forall i :: 0 <= i < 6 ==> ':' !in parts[i]
  {
    var organization, group := NormalizeKeyPart(r.organizationId), NormalizeKeyPart(r.groupId);
    var user := NormalizeKeyPart(Some(r.userId));
    match r
    case AuthorizationRequest(_, resource, action, _, _) =>
      ["auth", user, NormalizeKeyPart(Some(resource)), NormalizeKeyPart(Some(action)), organization, group]
    case EntitlementRequest(_, key, _, _, quantity) =>
      ["ent", user, NormalizeKeyPart(Some(key)), organization, group, NormalizeKeyPart(quantity)]
  }

  function Key(r: Request): string {
    Join(["rbac", "v1"] + KeyParts(r), ":")
  }

  /** The texts of the keys, part by part. */
  lemma KeyTexts(user: string, resource: string, action: string, key: string, organizationId: Option<string>,
                 groupId: Option<string>, quantity: Option<string>)
    ensures Key(AuthorizationRequest(user, resource, action, organizationId, groupId)) ==
            "rbac:v1:auth:" + NormalizeKeyPart(Some(user)) + ":" + NormalizeKeyPart(Some(resource)) + ":" +
            NormalizeKeyPart(Some(action)) + ":" + NormalizeKeyPart(organizationId) + ":" + NormalizeKeyPart(groupId)
    ensures Key(EntitlementRequest(user, key, organizationId, groupId, quantity)) ==
            "rbac:v1:ent:" + NormalizeKeyPart(Some(user)) + ":" + NormalizeKeyPart(Some(key)) + ":" +
            NormalizeKeyPart(organizationId) + ":" + NormalizeKeyPart(groupId) + ":" + NormalizeKeyPart(quantity)
  {
    var u, o, g := NormalizeKeyPart(Some(user)), NormalizeKeyPart(organizationId), NormalizeKeyPart(groupId);
    SixParts("auth", u, NormalizeKeyPart(Some(resource)), NormalizeKeyPart(Some(action)), o, g);
    SixParts("ent", u, NormalizeKeyPart(Some(key)), o, g, NormalizeKeyPart(quantity));
    assert ("rbac" + ":") + ("v1" + ":") + ("auth" + ":") == "rbac:v1:auth:";
    assert ("rbac" + ":") + ("v1" + ":") + ("ent" + ":") == "rbac:v1:ent:";
  }

  lemma SixParts(kind: string, a: string, b: string, c: string, d: string, e: string)
    ensures Join(["rbac", "v1"] + [kind, a, b, c, d, e], ":") ==
            ("rbac" + ":") + ("v1" + ":") + (kind + ":") + a + ":" + b + ":" + c + ":" + d + ":" + e
  {
    hide Join;
    assert Join([e], ":") == e by { LastPart(e); }
    JoinStep(":", d, [e]);
    JoinStep(":", c, [d] + [e]);
    JoinStep(":", b, [c] + ([d] + [e]));
    JoinStep(":", a, [b] + ([c] + ([d] + [e])));
    JoinStep(":", kind, [a] + ([b] + ([c] + ([d] + [e]))));
    JoinStep(":", "v1", [kind] + ([a] + ([b] + ([c] + ([d] + [e])))));
    JoinStep(":", "rbac", ["v1"] + ([kind] + ([a] + ([b] + ([c] + ([d] + [e]))))));
    assert ["rbac", "v1"] + [kind, a, b, c, d, e] ==
           ["rbac"] + (["v1"] + ([kind] + ([a] + ([b] + ([c] + ([d] + [e]))))));
  }

  lemma LastPart(e: string)
    ensures Join([e], ":") == e
  {
  }

  /** A part is trimmed, and each colon or whitespace character inside becomes an underscore; an absent part is one. */
  lemma PartText(part: string)
    ensures NormalizeKeyPart(None) == "_"
    ensures |NormalizeKeyPart(Some(part))| == |Trim(part)|
    ensures forall i :: 0 <= i < |Trim(part)| ==>
              NormalizeKeyPart(Some(part))[i] ==
              if Trim(part)[i] == ':' || Trim(part)[i] in SPACES then '_' else Trim(part)[i]
  {
    SpacesExactly();
  }

  lemma {:induction false} JoinInjective(a: seq<string>, b: seq<string>)
    requires |a| == |b| && Join(a, ":") == Join(b, ":")
    requires forall i :: 0 <= i < |a| ==> ':' !in a[i] && ':' !in b[i]
    ensures a == b
  {
    if |a| >= 2 {
      CutOnce(a[0], b[0], ':', Join(a[1..], ":"), Join(b[1..], ":"));
      JoinInjective(a[1..], b[1..]);
      assert a == [a[0]] + a[1..] && b == [b[0]] + b[1..];
    }
  }

  /** Two requests share a key exactly when they are of one kind and their parts normalise alike. */
  lemma SameKeyExactly(r: Request, r': Request)
    ensures Key(r) == Key(r') <==> KeyParts(r) == KeyParts(r')
  {
    if Key(r) == Key(r') {
      var a, b := ["rbac", "v1"] + KeyParts(r), ["rbac", "v1"] + KeyParts(r');
      JoinInjective(a, b);
      assert KeyParts(r) == a[2..] && KeyParts(r') == b[2..];
    }
  }

  /** No colon, no whitespace, and not the text that stands for an absent part. */
  predicate CleanText(s: string) {
    s != "_" && forall c :: c in s ==> c != ':' && !IsSpace(c)
  }

  predicate CleanPart(value: Option<string>) {
    value.Some? ==> CleanText(value.value)
  }

  predicate Clean(r: Request) {
    && CleanText(r.userId) && CleanPart(r.organizationId) && CleanPart(r.groupId)
    && match r
       case AuthorizationRequest(_, resource, action, _, _) => CleanText(resource) && CleanText(action)
       case EntitlementRequest(_, key, _, _, quantity) => CleanText(key) && CleanPart(quantity)
  }

  lemma CleanPartKept(value: Option<string>)
    requires CleanPart(value)
    ensures value.Some? ==> NormalizeKeyPart(value) == value.value
  {
    if value.Some? && |value.value| != 0 {
      var s := value.value;
      assert s[0] in s && s[|s| - 1] in s;
      assert forall i :: 0 <= i < |s| ==> s[i] in s;
      assert Replaced(s) == s;
    }
  }

  lemma CleanPartsDiffer(a: Option<string>, b: Option<string>)
    requires CleanPart(a) && CleanPart(b) && NormalizeKeyPart(a) == NormalizeKeyPart(b)
    ensures a == b
  {
    CleanPartKept(a);
    CleanPartKept(b);
  }

  /** On clean requests the key tells everything: authorization and entitlement keys included. */
  lemma CleanKeysAreInjective(r: Request, r': Request)
    requires Clean(r) && Clean(r') && Key(r) == Key(r')
    ensures r == r'
  {
    SameKeyExactly(r, r');
    var a, b := KeyParts(r), KeyParts(r');
    assert a[0] == b[0] && a[1] == b[1] && a[2] == b[2] && a[3] == b[3] && a[4] == b[4] && a[5] == b[5];
    CleanPartsDiffer(Some(r.userId), Some(r'.userId));
    CleanPartsDiffer(r.organizationId, r'.organizationId);
    CleanPartsDiffer(r.groupId, r'.groupId);
    if r.AuthorizationRequest? {
      CleanPartsDiffer(Some(r.resource), Some(r'.resource));
      CleanPartsDiffer(Some(r.action), Some(r'.action));
    } else {
      CleanPartsDiffer(Some(r.key), Some(r'.key));
      CleanPartsDiffer(r.quantity, r'.quantity);
    }
  }

  /**
   Off clean requests the key can confuse two questions: a resource "a:b" and a resource "a_b" share their entries.
   */
  lemma ColonResourceCollides(user: string, action: string, organizationId: Option<string>, groupId: Option<string>)
    ensures Key(AuthorizationRequest(user, "a:b", action, organizationId, groupId)) ==
            Key(AuthorizationRequest(user, "a_b", action, organizationId, groupId))
  {
    assert Trim("a:b") == "a:b" && Trim("a_b") == "a_b";
    assert Replaced("a:b") == "a_b" == Replaced("a_b");
  }

  function UserPrefix(kind: Kind, user: string): string {
    Join(["rbac", "v1", KindText(kind), NormalizeKeyPart(Some(user))], ":")
  }

  const ALL_PREFIX := "rbac:v1:"

  /**
   invalidateUserCache's prefix covers exactly the kind's keys of users whose normalised id starts with this user's.
   */
  lemma PrefixCoversExactly(kind: Kind, user: string, r: Request)
    ensures UserPrefix(kind, user) <= Key(r) <==>
            kind == KindOf(r) && NormalizeKeyPart(Some(user)) <= NormalizeKeyPart(Some(r.userId))
    ensures ALL_PREFIX <= Key(r)
  {
    var u := NormalizeKeyPart(Some(user));
    PrefixFromTheFront(kind, u);
    PrefixReaches(kind, u, r);
    PrefixBeforeColon(u, KeyParts(r)[1], Join(KeyParts(r)[2..], ":"));
  }

  /** Whose entries they are, as keys see it. */
  predicate SameUser(kind: Kind, user: string, r: Request) {
    KindOf(r) == kind && NormalizeKeyPart(Some(r.userId)) == NormalizeKeyPart(Some(user))
  }

  /** The user's prefix and a colon cover exactly the user's own keys of the kind. */
  lemma OwnPrefixCoversExactly(kind: Kind, user: string, r: Request)
    ensures UserPrefix(kind, user) + ":" <= Key(r) <==> SameUser(kind, user, r)
    ensures UserPrefix(kind, user) <= UserPrefix(kind, user) + ":"
  {
    var u := NormalizeKeyPart(Some(user));
    PrefixFromTheFront(kind, u);
    assert "rbac:v1:" + (KindText(kind) + ":" + u) + ":" == "rbac:v1:" + (KindText(kind) + ":" + (u + ":"));
    PrefixReaches(kind, u + ":", r);
    WholePart(u, KeyParts(r)[1], Join(KeyParts(r)[2..], ":"));
  }

  lemma WholePart(u: string, v: string, tail: string)
    requires ':' !in u && ':' !in v
    ensures u + ":" <= v + ":" + tail <==> u == v
  {
    var whole := v + ":" + tail;
    if u + ":" <= whole {
      var rest := whole[|u| + 1..];
      assert whole == u + [':'] + rest;
      CutOnce(u, v, ':', rest, tail);
    }
    if u == v {
      assert (v + ":" + tail)[..|u| + 1] == u + ":";
    }
  }

  lemma PrefixReaches(kind: Kind, x: string, r: Request)
    ensures "rbac:v1:" + (KindText(kind) + ":" + x) <= Key(r) <==>
            kind == KindOf(r) && x <= KeyParts(r)[1] + ":" + Join(KeyParts(r)[2..], ":")
    ensures ALL_PREFIX <= Key(r)
  {
    var parts := KeyParts(r);
    var rest := parts[1] + ":" + Join(parts[2..], ":");
    KeyFromTheFront(parts[0], parts[1], parts[2..]);
    assert parts == [parts[0], parts[1]] + parts[2..];
    assert Key(r) == "rbac:v1:" + (parts[0] + ":" + rest);
    PrefixAfter("rbac:v1:", KindText(kind) + ":" + x, parts[0] + ":" + rest);
    if kind == KindOf(r) {
      PrefixAfter(parts[0] + ":", x, rest);
    } else {
      var a, b := KindText(kind) + ":" + x, parts[0] + ":" + rest;
      assert a[0] != b[0];
    }
  }

  lemma Regroup(k: string)
    ensures "rbac" + ":" + ("v1" + ":" + k) == "rbac:v1:" + k
  {
  }

  lemma KeyFromTheFront(kind: string, user: string, rest: seq<string>)
    requires |rest| != 0
    ensures Join(["rbac", "v1"] + ([kind, user] + rest), ":") ==
            "rbac:v1:" + (kind + ":" + (user + ":" + Join(rest, ":")))
  {
    hide Join;
    JoinStep(":", user, rest);
    JoinStep(":", kind, [user] + rest);
    JoinStep(":", "v1", [kind] + ([user] + rest));
    JoinStep(":", "rbac", ["v1"] + ([kind] + ([user] + rest)));
    assert ["rbac", "v1"] + ([kind, user] + rest) == ["rbac"] + (["v1"] + ([kind] + ([user] + rest)));
    Regroup(kind + ":" + (user + ":" + Join(rest, ":")));
  }

  lemma PrefixFromTheFront(kind: Kind, user: string)
    ensures Join(["rbac", "v1", KindText(kind), user], ":") == "rbac:v1:" + (KindText(kind) + ":" + user)
  {
    JoinStep(":", KindText(kind), [user]);
    JoinStep(":", "v1", [KindText(kind)] + [user]);
    JoinStep(":", "rbac", ["v1"] + ([KindText(kind)] + [user]));
    assert ["rbac", "v1", KindText(kind), user] == ["rbac"] + (["v1"] + ([KindText(kind)] + [user]));
    Regroup(KindText(kind) + ":" + user);
  }

  lemma PrefixAfter(common: string, a: string, b: string)
    ensures common + a <= common + b <==> a <= b
  {
    assert (common + a)[|common|..] == a && (common + b)[|common|..] == b;
    if common + a <= common + b {
      assert forall i :: 0 <= i < |a| ==> a[i] == (common + a)[|common| + i] == (common + b)[|common| + i] == b[i];
    }
  }

  lemma PrefixBeforeColon(u: string, v: string, tail: string)
    requires ':' !in u
    ensures u <= v + ":" + tail <==> u <= v
  {
    var whole := v + ":" + tail;
    assert whole[|v|] == ':';
    if u <= whole {
      assert forall i {:trigger whole[i]} :: 0 <= i < |u| ==> whole[i] == u[i] && u[i] in u;
    }
  }

  // ----- the cache -----

  datatype Stored = Stored(answer: Answer, expiresAt: int)

  type Entries = map<string, Stored>

  function Lookup(entries: Entries, key: string, now: int): Option<Answer> {
    if key in entries && now < entries[key].expiresAt then Some(entries[key].answer) else None
  }

  function Put(entries: Entries, key: string, answer: Answer, ttlSeconds: nat, now: int): Entries {
    entries[key := Stored(answer, now + ttlSeconds * 1000)]
  }

  function Without(entries: Entries, prefix: string): Entries {
    map key | key in entries && !(prefix <= key) :: entries[key]
  }

  datatype Config = Config(uses: string -> bool, authTtlSeconds: nat, entitlementTtlSeconds: nat,
      negativeTtlSeconds: nat)

  function Ttl(config: Config, answer: Answer): nat {
    match answer
    case Authorization(allowed, _, _) => if allowed then config.authTtlSeconds else config.negativeTtlSeconds
    case Entitled(_, _) => config.entitlementTtlSeconds
    case _ => config.negativeTtlSeconds
  }

  class RedisRBACCache {
    var entries: Entries

    constructor ()
      ensures entries == map[]
    {
      entries := map[];
    }

    method Get(key: string, now: int) returns (answer: Option<Answer>)
      ensures answer == Lookup(entries, key, now)
    {
      if key !in entries || entries[key].expiresAt <= now {
        return None;
      }
      answer := Some(entries[key].answer);
    }

    method Set(key: string, answer: Answer, ttlSeconds: nat, now: int)
      modifies this
      ensures entries == Put(old(entries), key, answer, ttlSeconds, now)
    {
      entries := entries[key := Stored(answer, now + ttlSeconds * 1000)];
    }

    /** The scan hands over the matching keys batch by batch; here one key a turn. */
    method DeleteByPrefix(prefix: string)
      modifies this
      ensures entries == Without(old(entries), prefix)
    {
      var rest := set key | key in entries && prefix <= key;
      while rest != {}
        invariant rest <= entries.Keys
        invariant forall key :: key in rest <==> key in entries && prefix <= key
        invariant forall key :: key in entries ==> key in old(entries) && entries[key] == old(entries)[key]
        invariant forall key :: key in old(entries) && !(prefix <= key) ==> key in entries
        decreases rest
      {
        var key :| key in rest;
        entries := entries - {key};
        rest := rest - {key};
      }
    }
  }

  class RBACService {
    const cache: RedisRBACCache
    const config: Config

    constructor (cache: RedisRBACCache, config: Config)
      ensures this.cache == cache && this.config == config
    {
      this.cache := cache;
      this.config := config;
    }

    /** authorizationCheck and entitlementCheck, undisturbed and with the cache reachable. */
    method Check(env: Env, db: Db, r: Request, now: int) returns (answer: Answer)
      modifies cache
      ensures var hit := if config.uses(r.userId) then Lookup(old(cache.entries), Key(r), now) else None;
              && answer == (if hit.Some? then hit.value else Evaluate(env, db, r, now))
              && cache.entries ==
                 (if hit.Some? || !config.uses(r.userId) then old(cache.entries)
                  else Put(old(cache.entries), Key(r), answer, Ttl(config, answer), now))
      ensures old(cache.entries) == map[] && config.uses(r.userId) ==>
                var seconds := match answer
                               case Authorization(true, _, _) => config.authTtlSeconds
                               case Entitled(_, _) => config.entitlementTtlSeconds
                               case _ => config.negativeTtlSeconds;
                cache.entries == map[Key(r) := Stored(answer, now + 1000 * seconds)]
    {
      var shouldUseCache := config.uses(r.userId);
      var key := Key(r);
      if shouldUseCache {
        var cached := cache.Get(key, now);
        if cached.Some? {
          return cached.value;
        }
      }
      answer := Evaluate(env, db, r, now);
      if shouldUseCache {
        var ttlSeconds := config.negativeTtlSeconds;
        if answer.Authorization? && answer.allowed {
          ttlSeconds := config.authTtlSeconds;
        } else if answer.Entitled? {
          ttlSeconds := config.entitlementTtlSeconds;
        }
        cache.Set(key, answer, ttlSeconds, now);
      }
    }

    method InvalidateUserCache(user: string)
      modifies cache
      ensures cache.entries == Without(Without(old(cache.entries), UserPrefix(Auth, user)), UserPrefix(Ent, user))
    {
      cache.DeleteByPrefix(UserPrefix(Auth, user));
      cache.DeleteByPrefix(UserPrefix(Ent, user));
    }

    method InvalidateAllCache()
      modifies cache
      ensures forall r: Request :: Key(r) !in cache.entries
      ensures cache.entries == Without(old(cache.entries), ALL_PREFIX)
    {
      cache.DeleteByPrefix(ALL_PREFIX);
      forall r: Request ensures Key(r) !in cache.entries {
        PrefixCoversExactly(Auth, r.userId, r);
      }
    }
  }

  // ----- interleaved checks -----

  /** An uncached evaluation: of the tables, the request and the clock. */
  type Uncached = (Db, Request, int) -> Answer

  function UncachedIn(env: Env): Uncached {
    (db: Db, r: Request, now: int) => Evaluate(env, db, r, now)
  }

  /** What the tables and the clock were when an event happened. */
  datatype Moment = Moment(db: Db, now: int)

  /** Where a stored answer came from: the step that read it and the step that stored it. */
  datatype Origin = Origin(request: Request, read: nat, stored: nat)

  datatype Call = Missed(request: Request) | Computed(request: Request, answer: Answer, read: nat)

  /** An answer returned at a step; None when the call evaluated it itself, at step `read`. */
  datatype Served = Served(request: Request, answer: Answer, step: nat, read: nat, origin: Option<Origin>)

  datatype System = System(
    db: Db,
    now: int,
    entries: Entries,
    origins: map<string, Origin>,
    calls: map<nat, Call>,
    served: seq<Served>,
    history: seq<Moment>)

  datatype Event =
    | Tick(later: int)
    | Change(tables: Db)
    | Begin(call: nat, request: Request)
    | BeginWithoutCache(call: nat, request: Request)
    | Read(call: nat)
    | Finish(call: nat)
    | FinishWithoutCache(call: nat)
    | DropUser(kind: Kind, user: string)
    | DropAll

  function Start(db: Db, now: int): System {
    System(db, now, map[], map[], map[], [], [])
  }

  function Drop(s: System, prefix: string): System {
    s.(entries := Without(s.entries, prefix))
  }

  function Serve(s: System, v: Served): System {
    s.(served := s.served + [v])
  }

  /** A check starts: a hit answers at once, a miss leaves a pending call. */
  function Open(config: Config, s: System, call: nat, r: Request): System {
    var hit := if config.uses(r.userId) then Lookup(s.entries, Key(r), s.now) else None;
    if call in s.calls then s
    else if hit.Some? && Key(r) in s.origins then
      Serve(s, Served(r, hit.value, |s.history|, s.origins[Key(r)].read, Some(s.origins[Key(r)])))
    else s.(calls := s.calls[call := Missed(r)])
  }

  function ReadTables(f: Uncached, s: System, call: nat): System {
    if call in s.calls && s.calls[call].Missed? then
      var r := s.calls[call].request;
      s.(calls := s.calls[call := Computed(r, f(s.db, r, s.now), |s.history|)])
    else s
  }

  /** A computed answer is stored, where the cache is used and reachable, and returned. */
  function Close(config: Config, s: System, call: nat, reachable: bool): System {
    if call in s.calls && s.calls[call].Computed? then
      var c := s.calls[call];
      var key := Key(c.request);
      var next := Serve(s.(calls := s.calls - {call}), Served(c.request, c.answer, |s.history|, c.read, None));
      if reachable && config.uses(c.request.userId) then
        next.(entries := Put(s.entries, key, c.answer, Ttl(config, c.answer), s.now),
              origins := s.origins[key := Origin(c.request, c.read, |s.history|)])
      else next
    else s
  }

  function Effect(f: Uncached, config: Config, s: System, e: Event): System {
    match e
    case Tick(later) => if later >= s.now then s.(now := later) else s
    case Change(tables) => s.(db := tables)
    case Begin(call, r) => Open(config, s, call, r)
    case BeginWithoutCache(call, r) => if call in s.calls then s else s.(calls := s.calls[call := Missed(r)])
    case Read(call) => ReadTables(f, s, call)
    case Finish(call) => Close(config, s, call, true)
    case FinishWithoutCache(call) => Close(config, s, call, false)
    case DropUser(kind, user) => Drop(s, UserPrefix(kind, user))
    case DropAll => Drop(s, ALL_PREFIX)
  }

  function Step(f: Uncached, config: Config, s: System, e: Event): System {
    Effect(f, config, s, e).(history := s.history + [Moment(s.db, s.now)])
  }

  function Run(f: Uncached, config: Config, s: System, events: seq<Event>): System
    decreases |events|
  {
    if |events| == 0 then s
    else Step(f, config, Run(f, config, s, events[..|events| - 1]), events[|events| - 1])
  }

  /** With the cache out of reach a check still answers from the tables, and stores nothing. */
  lemma OutOfReach(f: Uncached, config: Config, s: System, call: nat, r: Request)
    requires call !in s.calls
    ensures var a := Step(f, config, s, BeginWithoutCache(call, r));
            var b := Step(f, config, a, Read(call));
            var c := Step(f, config, b, FinishWithoutCache(call));
            && c.served == s.served + [Served(r, f(s.db, r, s.now), |s.history| + 2, |s.history| + 1, None)]
            && c.entries == s.entries && c.origins == s.origins && c.calls == s.calls && c.db == s.db
  {
  }

  // ----- what every run keeps -----

  predicate ReadAt(f: Uncached, history: seq<Moment>, r: Request, answer: Answer, read: nat) {
    read < |history| && answer == f(history[read].db, r, history[read].now)
  }

  predicate OriginGood(f: Uncached, config: Config, history: seq<Moment>, key: string, origin: Origin, stored: Stored) {
    && Key(origin.request) == key
    && ReadAt(f, history, origin.request, stored.answer, origin.read)
    && origin.read < origin.stored < |history|
    && stored.expiresAt == history[origin.stored].now + Ttl(config, stored.answer) * 1000
  }

  predicate ServedGood(f: Uncached, config: Config, history: seq<Moment>, v: Served) {
    && v.step < |history| && v.read < v.step
    && match v.origin
       case None => ReadAt(f, history, v.request, v.answer, v.read)
       case Some(origin) =>
         && origin.read == v.read && v.read < origin.stored < v.step
         && Key(origin.request) == Key(v.request)
         && ReadAt(f, history, origin.request, v.answer, v.read)
         && history[v.step].now < history[origin.stored].now + Ttl(config, v.answer) * 1000
  }

  predicate CallGood(f: Uncached, history: seq<Moment>, c: Call) {
    c.Computed? ==> ReadAt(f, history, c.request, c.answer, c.read)
  }

  ghost predicate Inv(f: Uncached, config: Config, s: System) {
    && (forall key :: key in s.entries ==>
          key in s.origins && OriginGood(f, config, s.history, key, s.origins[key], s.entries[key]))
    && (forall call :: call in s.calls ==> CallGood(f, s.history, s.calls[call]))
    && (forall i :: 0 <= i < |s.served| ==> ServedGood(f, config, s.history, s.served[i]))
  }

  lemma LongerHistory(f: Uncached, config: Config, s: System, m: Moment)
    requires Inv(f, config, s)
    ensures Inv(f, config, s.(history := s.history + [m]))
  {
    hide Key, Ttl;
  }

  lemma OpenKeepsInv(f: Uncached, config: Config, s: System, call: nat, r: Request)
    requires Inv(f, config, s)
    ensures Inv(f, config, Open(config, s, call, r).(history := s.history + [Moment(s.db, s.now)]))
  {
    hide Key;
    var next := Open(config, s, call, r).(history := s.history + [Moment(s.db, s.now)]);
    LongerHistory(f, config, s, Moment(s.db, s.now));
    if |next.served| != |s.served| {
      var v := next.served[|s.served|];
      assert OriginGood(f, config, s.history, Key(r), s.origins[Key(r)], s.entries[Key(r)]);
      assert ServedGood(f, config, next.history, v);
    }
  }

  lemma ReadKeepsInv(f: Uncached, config: Config, s: System, call: nat)
    requires Inv(f, config, s)
    ensures Inv(f, config, ReadTables(f, s, call).(history := s.history + [Moment(s.db, s.now)]))
  {
    LongerHistory(f, config, s, Moment(s.db, s.now));
  }

  lemma CloseKeepsInv(f: Uncached, config: Config, s: System, call: nat, reachable: bool)
    requires Inv(f, config, s)
    ensures Inv(f, config, Close(config, s, call, reachable).(history := s.history + [Moment(s.db, s.now)]))
  {
    var next := Close(config, s, call, reachable).(history := s.history + [Moment(s.db, s.now)]);
    LongerHistory(f, config, s, Moment(s.db, s.now));
    if call in s.calls && s.calls[call].Computed? {
      assert CallGood(f, s.history, s.calls[call]);
      assert ServedGood(f, config, next.history, next.served[|s.served|]);
    }
  }

  lemma DropKeepsInv(f: Uncached, config: Config, s: System, prefix: string)
    requires Inv(f, config, s)
    ensures Inv(f, config, Drop(s, prefix).(history := s.history + [Moment(s.db, s.now)]))
  {
    LongerHistory(f, config, s, Moment(s.db, s.now));
  }

  lemma StepKeepsInv(f: Uncached, config: Config, s: System, e: Event)
    requires Inv(f, config, s)
    ensures Inv(f, config, Step(f, config, s, e))
  {
    LongerHistory(f, config, s, Moment(s.db, s.now));
    match e
    case Tick(_) =>
    case Change(_) =>
    case Begin(call, r) => OpenKeepsInv(f, config, s, call, r);
    case BeginWithoutCache(call, r) =>
    case Read(call) => ReadKeepsInv(f, config, s, call);
    case Finish(call) => CloseKeepsInv(f, config, s, call, true);
    case FinishWithoutCache(call) => CloseKeepsInv(f, config, s, call, false);
    case DropUser(kind, user) => DropKeepsInv(f, config, s, UserPrefix(kind, user));
    case DropAll => DropKeepsInv(f, config, s, ALL_PREFIX);
  }

  lemma {:induction false} RunKeepsInv(f: Uncached, config: Config, s: System, events: seq<Event>)
    requires Inv(f, config, s)
    ensures Inv(f, config, Run(f, config, s, events))
    decreases |events|
  {
    if |events| != 0 {
      RunKeepsInv(f, config, s, events[..|events| - 1]);
      StepKeepsInv(f, config, Run(f, config, s, events[..|events| - 1]), events[|events| - 1]);
    }
  }

  // ----- bounded staleness -----

  predicate EventClean(e: Event) {
    match e
    case Begin(_, r) => Clean(r)
    case BeginWithoutCache(_, r) => Clean(r)
    case _ => true
  }

  predicate AllRequestsClean(s: System) {
    && (forall call :: call in s.calls ==> Clean(s.calls[call].request))
    && (forall key :: key in s.origins ==> Clean(s.origins[key].request))
    && (forall i :: 0 <= i < |s.served| ==>
          Clean(s.served[i].request) && (s.served[i].origin.Some? ==> Clean(s.served[i].origin.value.request)))
  }

  lemma {:induction false} CleanRun(f: Uncached, config: Config, s: System, events: seq<Event>)
    requires AllRequestsClean(s) && forall i :: 0 <= i < |events| ==> EventClean(events[i])
    ensures AllRequestsClean(Run(f, config, s, events))
    decreases |events|
  {
    if |events| != 0 {
      CleanRun(f, config, s, events[..|events| - 1]);
      var before := Run(f, config, s, events[..|events| - 1]);
      CleanStep(f, config, before, events[|events| - 1]);
    }
  }

  lemma CleanStep(f: Uncached, config: Config, s: System, e: Event)
    requires AllRequestsClean(s) && EventClean(e)
    ensures AllRequestsClean(Step(f, config, s, e))
  {
    hide Key, Clean, Lookup, Put, Ttl, UserPrefix, Without;
    var next := Step(f, config, s, e);
    if e.Begin? {
      assert |next.served| > |s.served| ==> next.served[|s.served|].request == e.request;
    }
  }

  /**
   Every answer of a run of clean requests is the uncached answer to the same request at an earlier step: the call's own
   read, or the read behind an entry. Then it is younger than the time to live plus the delay from that read to the
   store.
   */
  lemma BoundedStaleness(env: Env, config: Config, db: Db, now: int, events: seq<Event>, i: nat)
    requires forall j :: 0 <= j < |events| ==> EventClean(events[j])
    requires i < |Run(UncachedIn(env), config, Start(db, now), events).served|
    ensures var s := Run(UncachedIn(env), config, Start(db, now), events);
            var v := s.served[i];
            && v.read < v.step < |s.history|
            && v.answer == Evaluate(env, s.history[v.read].db, v.request, s.history[v.read].now)
            && (v.origin.Some? ==>
                  && v.read < v.origin.value.stored < v.step
                  && s.history[v.step].now - s.history[v.read].now <
                     Ttl(config, v.answer) * 1000
                     + (s.history[v.origin.value.stored].now - s.history[v.read].now))
  {
    RunKeepsInv(UncachedIn(env), config, Start(db, now), events);
    CleanRun(UncachedIn(env), config, Start(db, now), events);
    var s := Run(UncachedIn(env), config, Start(db, now), events);
    var v := s.served[i];
    assert ServedGood(UncachedIn(env), config, s.history, v);
    if v.origin.Some? {
      CleanKeysAreInjective(v.origin.value.request, v.request);
    }
  }

  /**
   The delay counts: an answer read now and stored `delay` later is still served at any time before the time to live
   after that, so every age below the sum is reached, whatever the tables have become.
   */
  lemma StalenessIsReached(f: Uncached, config: Config, db: Db, changed: Db, r: Request, now: int, delay: nat,
      wait: nat)
    requires config.uses(r.userId) && wait < Ttl(config, f(db, r, now)) * 1000
    ensures var events := [Begin(0, r), Read(0), Change(changed), Tick(now + delay), Finish(0),
                           Tick(now + delay + wait)];
            var end := Run(f, config, Start(db, now), events + [Begin(1, r)]);
            && |end.served| == 2 && end.db == changed && end.now == now + delay + wait
            && end.served[1].request == r && end.served[1].answer == f(db, r, now)
  {
    hide Key, Step, Run;
    var s2 := AfterRead(f, config, db, r, now);
    var s4 := Step(f, config, Step(f, config, s2, Change(changed)), Tick(now + delay));
    ChangeAndTick(f, config, s2, changed, now + delay);
    StoreWaitServe(f, config, s4, r, f(db, r, now), 1, now + delay + wait);
    var events := [Begin(0, r), Read(0), Change(changed), Tick(now + delay), Finish(0), Tick(now + delay + wait)];
    RunSix(f, config, Start(db, now),
           Begin(0, r), Read(0), Change(changed), Tick(now + delay), Finish(0), Tick(now + delay + wait));
    Unroll(f, config, Start(db, now), events, Begin(1, r));
  }

  lemma ChangeAndTick(f: Uncached, config: Config, s: System, changed: Db, later: int)
    requires later >= s.now
    ensures var t := Step(f, config, Step(f, config, s, Change(changed)), Tick(later));
            t.calls == s.calls && t.served == s.served && t.db == changed && t.now == later
  {
  }

  lemma StoreWaitServe(f: Uncached, config: Config, s: System, r: Request, answer: Answer, read: nat, later: int)
    requires config.uses(r.userId) && s.now <= later < s.now + Ttl(config, answer) * 1000
    requires s.calls == map[0 := Computed(r, answer, read)] && s.served == []
    ensures var end := Step(f, config, Step(f, config, Step(f, config, s, Finish(0)), Tick(later)), Begin(1, r));
            && |end.served| == 2 && end.db == s.db && end.now == later
            && end.served[1].request == r && end.served[1].answer == answer
  {
    hide Key;
    var stored := Step(f, config, s, Finish(0));
    var waited := Step(f, config, stored, Tick(later));
    assert waited.calls == map[] && waited.now == later && |waited.served| == 1;
    assert Lookup(waited.entries, Key(r), later) == Some(answer) && Key(r) in waited.origins;
  }

  // ----- invalidation -----

  /** Since the drop of a prefix at step `k`, everything stored or served from the cache under it was stored later. */
  ghost predicate StoredSince(s: System, prefix: string, k: nat, served: nat) {
    && k < |s.history| && served <= |s.served|
    && (forall key :: key in s.entries && key in s.origins && prefix <= key ==> s.origins[key].stored > k)
    && (forall i :: served <= i < |s.served| && prefix <= Key(s.served[i].request) && s.served[i].origin.Some? ==>
          s.served[i].origin.value.stored > k)
  }

  /** And with no answer in flight at the drop, everything was also read later. */
  ghost predicate ReadSince(s: System, prefix: string, k: nat, served: nat) {
    && k < |s.history| && served <= |s.served|
    && (forall key :: key in s.entries && key in s.origins && prefix <= key ==> s.origins[key].read > k)
    && (forall call :: call in s.calls && s.calls[call].Computed? && prefix <= Key(s.calls[call].request) ==>
          s.calls[call].read > k)
    && (forall i :: served <= i < |s.served| && prefix <= Key(s.served[i].request) ==> s.served[i].read > k)
  }

  lemma StepKeepsStoredSince(f: Uncached, config: Config, s: System, e: Event, prefix: string, k: nat, served: nat)
    requires StoredSince(s, prefix, k, served)
    ensures StoredSince(Step(f, config, s, e), prefix, k, served)
  {
    hide Key, UserPrefix;
    var next := Step(f, config, s, e);
    forall i | served <= i < |next.served| && prefix <= Key(next.served[i].request) && next.served[i].origin.Some?
      ensures next.served[i].origin.value.stored > k
    {
      assert i < |s.served| ==> next.served[i] == s.served[i];
      assert i >= |s.served| ==> Key(next.served[i].request) in s.entries;
    }
  }

  lemma StepKeepsReadSince(f: Uncached, config: Config, s: System, e: Event, prefix: string, k: nat, served: nat)
    requires ReadSince(s, prefix, k, served)
    ensures ReadSince(Step(f, config, s, e), prefix, k, served)
  {
    hide Key, UserPrefix;
    var next := Step(f, config, s, e);
    forall i | served <= i < |next.served| && prefix <= Key(next.served[i].request) ensures next.served[i].read > k {
      assert i < |s.served| ==> next.served[i] == s.served[i];
      assert i >= |s.served| && next.served[i].origin.Some? ==> Key(next.served[i].request) in s.entries;
    }
  }

  lemma {:induction false} RunKeepsSince(f: Uncached, config: Config, s: System, events: seq<Event>,
                                         prefix: string, k: nat, served: nat)
    ensures StoredSince(s, prefix, k, served) ==> StoredSince(Run(f, config, s, events), prefix, k, served)
    ensures ReadSince(s, prefix, k, served) ==> ReadSince(Run(f, config, s, events), prefix, k, served)
    decreases |events|
  {
    hide StoredSince, ReadSince, Step;
    if |events| != 0 {
      RunKeepsSince(f, config, s, events[..|events| - 1], prefix, k, served);
      var before := Run(f, config, s, events[..|events| - 1]);
      if StoredSince(before, prefix, k, served) {
        StepKeepsStoredSince(f, config, before, events[|events| - 1], prefix, k, served);
      }
      if ReadSince(before, prefix, k, served) {
        StepKeepsReadSince(f, config, before, events[|events| - 1], prefix, k, served);
      }
    }
  }

  /** A check of this kind for this user has read the tables and not yet stored or returned its answer. */
  ghost predicate InFlight(s: System, kind: Kind, user: string) {
    exists call :: call in s.calls && s.calls[call].Computed? && SameUser(kind, user, s.calls[call].request)
  }

  /**
   After a drop of a user's entries, whatever happens, no entry stored before the drop is served for that user again.
   */
  lemma NothingEarlierServed(f: Uncached, config: Config, s: System, kind: Kind, user: string, after: seq<Event>,
      i: nat)
    requires var end := Run(f, config, Step(f, config, s, DropUser(kind, user)), after);
             |s.served| <= i < |end.served| && SameUser(kind, user, end.served[i].request) && end.served[i].origin.Some?
    ensures var v := Run(f, config, Step(f, config, s, DropUser(kind, user)), after).served[i];
            v.origin.value.stored > |s.history|
  {
    hide Key, UserPrefix;
    var next := Step(f, config, s, DropUser(kind, user));
    var prefix := UserPrefix(kind, user) + ":";
    OwnPrefixCoversExactly(kind, user, Run(f, config, next, after).served[i].request);
    assert StoredSince(next, prefix, |s.history|, |s.served|) by {
      DroppedWithMore(s.entries, UserPrefix(kind, user), prefix);
    }
    RunKeepsSince(f, config, next, after, prefix, |s.history|, |s.served|);
  }

  lemma DroppedWithMore(entries: Entries, prefix: string, longer: string)
    requires prefix <= longer
    ensures forall key :: key in Without(entries, prefix) ==> !(longer <= key)
  {
  }

  /** After the drop and then `after`, answer i of the run is for this user and rests on a read from before the drop. */
  ghost predicate ReturnsOld(f: Uncached, config: Config, s: System, kind: Kind, user: string, after: seq<Event>,
      i: nat)
  {
    var end := Run(f, config, Step(f, config, s, DropUser(kind, user)), after);
    |s.served| <= i < |end.served| && SameUser(kind, user, end.served[i].request) && end.served[i].read <= |s.history|
  }

  lemma QuietDrop(f: Uncached, config: Config, s: System, kind: Kind, user: string, after: seq<Event>, i: nat)
    requires !InFlight(s, kind, user)
    ensures !ReturnsOld(f, config, s, kind, user, after, i)
  {
    hide Key, UserPrefix;
    var next := Step(f, config, s, DropUser(kind, user));
    var prefix := UserPrefix(kind, user) + ":";
    forall r: Request ensures prefix <= Key(r) <==> SameUser(kind, user, r) {
      OwnPrefixCoversExactly(kind, user, r);
    }
    assert UserPrefix(kind, user) <= prefix;
    DroppedWithMore(s.entries, UserPrefix(kind, user), prefix);
    assert ReadSince(next, prefix, |s.history|, |s.served|);
    RunKeepsSince(f, config, next, after, prefix, |s.history|, |s.served|);
  }

  /** A call in flight returns its old answer as soon as it finishes. */
  lemma InFlightReturnsOld(f: Uncached, config: Config, s: System, kind: Kind, user: string, call: nat)
    requires Inv(f, config, s) && call in s.calls && s.calls[call].Computed? &&
             SameUser(kind, user, s.calls[call].request)
    ensures ReturnsOld(f, config, s, kind, user, [Finish(call)], |s.served|)
  {
    hide Key, UserPrefix;
    assert CallGood(f, s.history, s.calls[call]);
    var next := Step(f, config, s, DropUser(kind, user));
    assert next.calls == s.calls && next.served == s.served;
    Unroll(f, config, next, [], Finish(call));
    assert [] + [Finish(call)] == [Finish(call)];
  }

  /**
   In any reachable state, dropping a user's entries lets an answer read before the drop be returned for that user
   afterwards exactly when a check for that user is in flight.
   */
  lemma OldAnswerReturnedExactly(f: Uncached, config: Config, s: System, kind: Kind, user: string)
    requires Inv(f, config, s)
    ensures (exists after, i :: ReturnsOld(f, config, s, kind, user, after, i)) <==> InFlight(s, kind, user)
  {
    if InFlight(s, kind, user) {
      var call :| call in s.calls && s.calls[call].Computed? && SameUser(kind, user, s.calls[call].request);
      InFlightReturnsOld(f, config, s, kind, user, call);
    } else {
      forall after, i ensures !ReturnsOld(f, config, s, kind, user, after, i) {
        QuietDrop(f, config, s, kind, user, after, i);
      }
    }
  }

  /**
   The guarantee stops there: a check that read the tables before the change and the drop stores its answer after them,
   and the next check is served the old answer.
   */
  lemma InFlightCheckRefills(f: Uncached, config: Config, db: Db, changed: Db, r: Request, now: int)
    requires config.uses(r.userId) && Ttl(config, f(db, r, now)) > 0
    ensures var events := [Begin(0, r), Read(0), Change(changed), DropUser(KindOf(r), r.userId), Finish(0),
                           Begin(1, r)];
            var end := Run(f, config, Start(db, now), events);
            |end.served| == 2 && end.db == changed && end.served[1].request == r
            && end.served[1].answer == f(db, r, now)
  {
    hide Key, UserPrefix, Step, Run;
    var s4 := AfterDrop(f, config, db, changed, r, now);
    RefillThenServe(f, config, s4, r, f(db, r, now), 1);
    RunSix(f, config, Start(db, now),
           Begin(0, r), Read(0), Change(changed), DropUser(KindOf(r), r.userId), Finish(0), Begin(1, r));
  }

  lemma RunSix(f: Uncached, config: Config, s: System, a: Event, b: Event, c: Event, d: Event, e: Event, g: Event)
    ensures Run(f, config, s, [a, b, c, d, e, g]) ==
            Step(f, config, Step(f, config, Step(f, config,
              Step(f, config, Step(f, config, Step(f, config, s, a), b), c), d), e), g)
  {
    hide Step;
    Unroll(f, config, s, [a, b, c, d, e], g);
    Unroll(f, config, s, [a, b, c, d], e);
    Unroll(f, config, s, [a, b, c], d);
    Unroll(f, config, s, [a, b], c);
    Unroll(f, config, s, [a], b);
    Unroll(f, config, s, [], a);
    assert [a, b, c, d, e, g] == [a, b, c, d, e] + [g];
    assert [a, b, c, d, e] == [a, b, c, d] + [e];
    assert [a, b, c, d] == [a, b, c] + [d];
    assert [a, b, c] == [a, b] + [c];
    assert [a, b] == [a] + [b] && [] + [a] == [a];
  }

  lemma RefillThenServe(f: Uncached, config: Config, s: System, r: Request, answer: Answer, read: nat)
    requires config.uses(r.userId) && Ttl(config, answer) > 0
    requires s.calls == map[0 := Computed(r, answer, read)] && s.served == []
    ensures var end := Step(f, config, Step(f, config, s, Finish(0)), Begin(1, r));
            && |end.served| == 2 && end.db == s.db
            && end.served[1].request == r && end.served[1].answer == answer
  {
    hide Key;
    var s5 := Step(f, config, s, Finish(0));
    assert s5.calls == map[];
    assert Lookup(s5.entries, Key(r), s.now) == Some(answer) && Key(r) in s5.origins && |s5.served| == 1;
  }

  function AfterDrop(f: Uncached, config: Config, db: Db, changed: Db, r: Request, now: int): (s: System)
    ensures s.calls == map[0 := Computed(r, f(db, r, now), 1)] && s.served == [] && s.db == changed
  {
    hide Key, UserPrefix;
    Step(f, config, Step(f, config, AfterRead(f, config, db, r, now), Change(changed)), DropUser(KindOf(r), r.userId))
  }

  function AfterRead(f: Uncached, config: Config, db: Db, r: Request, now: int): (s: System)
    ensures s == System(db, now, map[], map[], map[0 := Computed(r, f(db, r, now), 1)], [],
                        [Moment(db, now), Moment(db, now)])
  {
    var s1 := Step(f, config, Start(db, now), Begin(0, r));
    assert s1.calls == map[0 := Missed(r)];
    Step(f, config, s1, Read(0))
  }

  lemma Unroll(f: Uncached, config: Config, s: System, before: seq<Event>, last: Event)
    ensures Run(f, config, s, before + [last]) == Step(f, config, Run(f, config, s, before), last)
  {
    assert (before + [last])[..|before|] == before;
  }
}

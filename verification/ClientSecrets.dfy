/** OAuth client secrets: creation and rotation, and the two paths that check a secret. */
module ClientSecrets {
  import opened Prelude
  import Base64
  import BasicAuth
  import Json
  import Utf8

  datatype Client = Client(
    clientId: string,
    clientType: string,
    tokenEndpointAuthMethod: string,
    status: string,
    redirectUris: seq<string>,
    allowedScopes: seq<string>)

  datatype Secret = Secret(
    clientPkId: nat,
    secretHash: string,
    isPrimary: bool,
    expiresAt: Option<int>,
    graceUntil: Option<int>,
    revokedAt: Option<int>)

  /** Rows are numbered in the order they were inserted; a client's and a secret's id is its number. */
  datatype Db = Db(clients: seq<Client>, secrets: seq<Secret>)

  const DAY := 24 * 60 * 60 * 1000

  // ----- transactions -----

  function FindByClientId(clients: seq<Client>, clientId: string): (r: Option<nat>)
    ensures r.Some? ==> r.value < |clients| && clients[r.value].clientId == clientId
    ensures r.None? <==> forall i :: 0 <= i < |clients| ==> clients[i].clientId != clientId
  {
    if |clients| == 0 then None
    else if clients[|clients| - 1].clientId == clientId then Some(|clients| - 1)
    else FindByClientId(clients[..|clients| - 1], clientId)
  }

  function NewSecret(pk: nat, secretHash: string): Secret {
    Secret(pk, secretHash, true, None, None, None)
  }

  /** The unique index on client_id refuses a second client of that name. */
  function Created(db: Db, client: Client, secretHash: string): Db {
    if FindByClientId(db.clients, client.clientId).Some? then db
    else Db(db.clients + [client], db.secrets + [NewSecret(|db.clients|, secretHash)])
  }

  function GraceUntil(days: int, now: int): Option<int> {
    if days > 0 then Some(now + days * DAY) else None
  }

  function Demoted(secrets: seq<Secret>, pk: nat, graceUntil: Option<int>): (r: seq<Secret>)
    ensures |r| == |secrets|
    ensures forall i :: 0 <= i < |r| ==>
              r[i] == if secrets[i].clientPkId == pk && secrets[i].isPrimary && secrets[i].revokedAt.None?
                      then secrets[i].(isPrimary := false, graceUntil := graceUntil) else secrets[i]
  {
    seq(|secrets|, i requires 0 <= i < |secrets| =>
      if secrets[i].clientPkId == pk && secrets[i].isPrimary && secrets[i].revokedAt.None?
      then secrets[i].(isPrimary := false, graceUntil := graceUntil) else secrets[i])
  }

  function Rotated(db: Db, clientId: string, secretHash: string, graceUntil: Option<int>): Db {
    var found := FindByClientId(db.clients, clientId);
    if found.None? then db
    else db.(secrets := Demoted(db.secrets, found.value, graceUntil) + [NewSecret(found.value, secretHash)])
  }

  /** Status, redirect URIs and scopes, each changed only where given. */
  datatype Changes = Changes(status: Option<string>, redirectUris: Option<seq<string>>,
      allowedScopes: Option<seq<string>>)

  function Or<T>(change: Option<T>, current: T): T {
    if change.Some? then change.value else current
  }

  function Updated(db: Db, clientId: string, changes: Changes): Db {
    var found := FindByClientId(db.clients, clientId);
    if found.None? then db
    else
      var c := db.clients[found.value];
      db.(clients := db.clients[found.value :=
        c.(status := Or(changes.status, c.status), redirectUris := Or(changes.redirectUris, c.redirectUris),
           allowedScopes := Or(changes.allowedScopes, c.allowedScopes))])
  }

  class OAuthClientRepository {
    var db: Db

    constructor ()
      ensures db == Db([], [])
    {
      db := Db([], []);
    }

    method CreateClient(client: Client, secretHash: string) returns (ok: bool)
      modifies this
      ensures ok == FindByClientId(old(db).clients, client.clientId).None?
      ensures db == Created(old(db), client, secretHash)
    {
      var existing := FindByClientId(db.clients, client.clientId);
      if existing.Some? {
        return false;
      }
      var pk := |db.clients|;
      db := db.(clients := db.clients + [client]);
      db := db.(secrets := db.secrets + [NewSecret(pk, secretHash)]);
      ok := true;
    }

    method RotateSecret(clientId: string, secretHash: string, graceUntil: Option<int>) returns (found: Option<nat>)
      modifies this
      ensures found == FindByClientId(old(db).clients, clientId)
      ensures db == Rotated(old(db), clientId, secretHash, graceUntil)
    {
      found := FindByClientId(db.clients, clientId);
      if found.None? {
        return;
      }
      db := db.(secrets := Demoted(db.secrets, found.value, graceUntil));
      db := db.(secrets := db.secrets + [NewSecret(found.value, secretHash)]);
    }
  }

  // ----- runs -----

  datatype Event =
    | Create(client: Client, secretHash: string)
    | Update(clientId: string, changes: Changes)
    | Rotate(clientId: string, secretHash: string, gracePeriodDays: int, now: int)

  function Step(db: Db, e: Event): Db {
    match e
    case Create(client, secretHash) => Created(db, client, secretHash)
    case Update(clientId, changes) => Updated(db, clientId, changes)
    case Rotate(clientId, secretHash, days, now) => Rotated(db, clientId, secretHash, GraceUntil(days, now))
  }

  function Run(db: Db, events: seq<Event>): Db
    decreases |events|
  {
    if |events| == 0 then db else Run(Step(db, events[0]), events[1..])
  }

  predicate Primary(db: Db, pk: nat, i: nat) {
    i < |db.secrets| && db.secrets[i].clientPkId == pk && db.secrets[i].isPrimary && db.secrets[i].revokedAt.None?
  }

  ghost predicate OnePrimary(db: Db, pk: nat) {
    exists i :: Primary(db, pk, i) && forall j :: Primary(db, pk, j) ==> j == i
  }

  ghost predicate Inv(db: Db) {
    && (forall pk :: 0 <= pk < |db.clients| ==> OnePrimary(db, pk))
    && (forall i :: 0 <= i < |db.secrets| ==> db.secrets[i].clientPkId < |db.clients|)
  }

  lemma SamePrimaries(db: Db, next: Db, pk: nat)
    requires OnePrimary(db, pk) && forall j :: Primary(next, pk, j) <==> Primary(db, pk, j)
    ensures OnePrimary(next, pk)
  {
    var i :| Primary(db, pk, i) && forall j :: Primary(db, pk, j) ==> j == i;
    assert Primary(next, pk, i);
  }

  lemma NewPrimary(db: Db, pk: nat, i: nat)
    requires Primary(db, pk, i) && forall j :: Primary(db, pk, j) ==> j == i
    ensures OnePrimary(db, pk)
  {
  }

  lemma CreateKeepsInv(db: Db, client: Client, secretHash: string)
    requires Inv(db)
    ensures Inv(Created(db, client, secretHash))
  {
    hide OnePrimary;
    var next := Created(db, client, secretHash);
    if FindByClientId(db.clients, client.clientId).None? {
      forall pk | 0 <= pk < |next.clients| ensures OnePrimary(next, pk) {
        if pk < |db.clients| {
          assert OnePrimary(db, pk);
          SamePrimaries(db, next, pk);
        } else {
          NewPrimary(next, pk, |db.secrets|);
        }
      }
    }
  }

  lemma RotateKeepsInv(db: Db, clientId: string, secretHash: string, graceUntil: Option<int>)
    requires Inv(db)
    ensures Inv(Rotated(db, clientId, secretHash, graceUntil))
  {
    hide OnePrimary;
    var next := Rotated(db, clientId, secretHash, graceUntil);
    var found := FindByClientId(db.clients, clientId);
    if found.Some? {
      forall pk | 0 <= pk < |next.clients| ensures OnePrimary(next, pk) {
        assert OnePrimary(db, pk);
        if pk == found.value {
          NewPrimary(next, pk, |db.secrets|);
        } else {
          SamePrimaries(db, next, pk);
        }
      }
    }
  }

  lemma StepKeepsInv(db: Db, e: Event)
    requires Inv(db)
    ensures Inv(Step(db, e))
  {
    match e
    case Create(client, secretHash) => CreateKeepsInv(db, client, secretHash);
    case Rotate(clientId, secretHash, days, now) => RotateKeepsInv(db, clientId, secretHash, GraceUntil(days, now));
    case Update(clientId, changes) =>
      forall pk | 0 <= pk < |db.clients| ensures OnePrimary(Step(db, e), pk) {
        assert OnePrimary(db, pk);
        SamePrimaries(db, Step(db, e), pk);
      }
  }

  /** Every run keeps exactly one unrevoked primary secret for every client. */
  lemma {:induction false} OnePrimaryAlways(db: Db, events: seq<Event>)
    requires Inv(db)
    ensures Inv(Run(db, events))
    decreases |events|
  {
    if |events| != 0 {
      StepKeepsInv(db, events[0]);
      OnePrimaryAlways(Step(db, events[0]), events[1..]);
    }
  }

  lemma {:induction false} RetiredStays(db: Db, events: seq<Event>, i: nat)
    requires i < |db.secrets| && !db.secrets[i].isPrimary
    ensures i < |Run(db, events).secrets| && Run(db, events).secrets[i] == db.secrets[i]
    decreases |events|
  {
    if |events| != 0 {
      RetiredStays(Step(db, events[0]), events[1..], i);
    }
  }

  /** The provider's query on a client's secrets: unrevoked, unexpired, and primary or within its grace period. */
  predicate Usable(s: Secret, now: int) {
    && s.revokedAt.None?
    && (s.expiresAt.None? || s.expiresAt.value > now)
    && (s.isPrimary || (s.graceUntil.Some? && s.graceUntil.value > now))
  }

  /**
   The secret a rotation replaces is never primary again, and whatever happens afterwards it is usable exactly until the
   grace the rotation gave it ends: not at all for a grace of no days.
   */
  lemma RotatedSecretUsableExactly(db: Db, clientId: string, secretHash: string, days: int, now: int,
      events: seq<Event>, i: nat, later: int)
    requires FindByClientId(db.clients, clientId).Some?
    requires Primary(db, FindByClientId(db.clients, clientId).value, i) && db.secrets[i].expiresAt.None?
    ensures var after := Run(Step(db, Rotate(clientId, secretHash, days, now)), events);
            && i < |after.secrets| && !after.secrets[i].isPrimary
            && (Usable(after.secrets[i], later) <==> days > 0 && later < now + days * 86_400_000)
  {
    RetiredStays(Step(db, Rotate(clientId, secretHash, days, now)), events, i);
  }

  // ----- the service path -----

  predicate Listed(s: Secret, pk: nat, now: int) {
    s.clientPkId == pk && s.revokedAt.None? && (s.expiresAt.None? || s.expiresAt.value > now)
  }

  function NewestFirst<T(!new)>(rows: seq<T>): (r: seq<T>)
    ensures forall x :: x in r <==> x in rows
  {
    if |rows| == 0 then []
    else
      assert rows == rows[..|rows| - 1] + [rows[|rows| - 1]];
      [rows[|rows| - 1]] + NewestFirst(rows[..|rows| - 1])
  }

  function ListActiveSecrets(db: Db, pk: nat, now: int): seq<Secret> {
    Filter((s: Secret) => Listed(s, pk, now), NewestFirst(db.secrets))
  }

  function FindActiveByClientId(clients: seq<Client>, clientId: string): (r: Option<nat>)
    ensures r.Some? ==>
              r.value < |clients| && clients[r.value].clientId == clientId && clients[r.value].status == "active"
    ensures r.None? && (exists c :: c in clients && c.clientId == clientId) ==>
              exists c :: c in clients && c.clientId == clientId && c.status != "active"
  {
    var found := FindByClientId(clients, clientId);
    if found.Some? && clients[found.value].status == "active" then found else None
  }

  predicate IsSecretUsable(s: Secret, now: int) {
    if s.isPrimary then true else if s.graceUntil.None? then false else s.graceUntil.value > now
  }

  /** argon2's verdict on a secret and a stored hash. */
  type Verify = (string, string) -> bool

  /** The table holds a secret of this client that verifies: unrevoked, unexpired, and primary or still in its grace. */
  ghost predicate TableAccepts(verify: Verify, db: Db, pk: nat, secret: string, now: int) {
    exists s ::
      && s in db.secrets && s.clientPkId == pk && verify(secret, s.secretHash)
      && s.revokedAt == None && (s.expiresAt == None || now < s.expiresAt.value)
      && (s.isPrimary || (s.graceUntil != None && now < s.graceUntil.value))
  }

  /** Comparing the UTF-8 buffers of two texts. */
  predicate SafeEqualString(left: string, right: string)
    ensures SafeEqualString(left, right) <==> left == right
  {
    if Utf8.Encode(left) == Utf8.Encode(right) then
      Utf8.Injective(left, right);
      true
    else false
  }

  datatype Env = Env(clientId: string, clientSecret: string)

  datatype Authentication =
    | Registered(clientPkId: nat)
    | Fallback
    | AuthenticationRequired
    | InvalidFormat
    | InvalidClient

  /** authenticateClientBasic: a usable secret of the active client named, or else the configured pair. */
  method AuthenticateClientBasic(verify: Verify, env: Env, db: Db, authorization: Option<string>, now: int)
    returns (r: Authentication)
    ensures match BasicAuth.ParseOAuthClientBasicAuth(authorization)
            case AuthenticationRequired => r == AuthenticationRequired
            case InvalidFormat => r == InvalidFormat
            case Credentials(clientId, clientSecret) =>
              var client := FindActiveByClientId(db.clients, clientId);
              if client.Some? && TableAccepts(verify, db, client.value, clientSecret, now)
              then r == Registered(client.value)
              else if clientId == env.clientId && clientSecret == env.clientSecret then r == Fallback
              else r == InvalidClient
  {
    var parsed := BasicAuth.ParseOAuthClientBasicAuth(authorization);
    match parsed
    case AuthenticationRequired => return AuthenticationRequired;
    case InvalidFormat => return InvalidFormat;
    case Credentials(clientId, clientSecret) =>
      var client := FindActiveByClientId(db.clients, clientId);
      if client.Some? {
        var activeSecrets := ListActiveSecrets(db, client.value, now);
        ActiveSecretsAre(db, client.value, now);
        for i := 0 to |activeSecrets|
          invariant forall j :: 0 <= j < i ==>
                      !(IsSecretUsable(activeSecrets[j], now) && verify(clientSecret, activeSecrets[j].secretHash))
        {
          if !IsSecretUsable(activeSecrets[i], now) {
            continue;
          }
          if verify(clientSecret, activeSecrets[i].secretHash) {
            assert activeSecrets[i] in activeSecrets;
            return Registered(client.value);
          }
        }
      }
      var configured := SafeEqualString(clientId, env.clientId) && SafeEqualString(clientSecret, env.clientSecret);
      r := if configured then Fallback else InvalidClient;
  }

  lemma ActiveSecretsAre(db: Db, pk: nat, now: int)
    ensures forall s :: s in ListActiveSecrets(db, pk, now) <==> s in db.secrets && Listed(s, pk, now)
  {
  }

  // ----- the OpenID provider's path -----

  const PREFIX := "argon2-hashes:"

  function Strings(texts: seq<string>): (r: seq<Json.Value>)
    ensures |r| == |texts| && forall i :: 0 <= i < |r| ==> r[i] == Json.Str(texts[i])
  {
    seq(|texts|, i requires 0 <= i < |texts| => Json.Str(texts[i]))
  }

  function EncodeOidcClientSecretHashes(hashes: seq<string>): string {
    PREFIX + Base64.Base64Url(Utf8.Encode(Json.Print(Json.Arr(Strings(hashes)))))
  }

  datatype Verdict = Yes | No | Malformed

  /** verifyOidcClientSecretMetadata; Malformed is JSON.parse throwing. */
  method VerifyOidcClientSecretMetadata(verify: Verify, actualSecret: string, metadataSecret: Option<string>)
    returns (r: Verdict)
    ensures r == Verified(verify, actualSecret, metadataSecret)
    ensures metadataSecret == None || !("argon2-hashes:" <= metadataSecret.value) ==> r == No
  {
    if metadataSecret.None? || !(PREFIX <= metadataSecret.value) {
      return No;
    }
    var encoded := metadataSecret.value[|PREFIX|..];
    var decoded := Json.ParseText(Utf8.Decode(Base64.Decode(encoded)));
    if decoded.None? {
      return Malformed;
    }
    if !decoded.value.Arr? {
      return No;
    }
    var items := decoded.value.items;
    for i := 0 to |items|
      invariant forall j :: 0 <= j < i ==> !(items[j].Str? && verify(actualSecret, items[j].s))
    {
      if !items[i].Str? {
        continue;
      }
      if verify(actualSecret, items[i].s) {
        return Yes;
      }
    }
    r := No;
  }

  ghost function Verified(verify: Verify, secret: string, metadata: Option<string>): Verdict {
    if metadata.None? || !(PREFIX <= metadata.value) then No else
    var decoded := Json.ParseText(Utf8.Decode(Base64.Decode(metadata.value[|PREFIX|..])));
    if decoded.None? then Malformed
    else if decoded.value.Arr? &&
            exists i :: 0 <= i < |decoded.value.items| && decoded.value.items[i].Str? &&
              verify(secret, decoded.value.items[i].s)
    then Yes
    else No
  }

  /** Encoding hashes and verifying against the encoding is verifying against any of them. */
  lemma VerifyUndoesEncode(verify: Verify, secret: string, hashes: seq<string>)
    ensures Verified(verify, secret, Some(EncodeOidcClientSecretHashes(hashes))) ==
            if exists h :: h in hashes && verify(secret, h) then Yes else No
    ensures EncodeOidcClientSecretHashes(hashes) ==
            "argon2-hashes:" + Base64.Base64Url(Utf8.Encode(Json.Print(Json.Arr(Strings(hashes)))))
  {
    hide Base64.Base64Url, Base64.Decode, Utf8.Encode, Utf8.Decode, Json.Print, Json.ParseText;
    var value := Json.Arr(Strings(hashes));
    var text := Json.Print(value);
    StringsAreJson(Strings(hashes));
    Json.RoundTrip(value);
    Utf8.RoundTrip(text);
    Base64.UrlRoundTrip(Utf8.Encode(text));
    assert EncodeOidcClientSecretHashes(hashes)[|PREFIX|..] == Base64.Base64Url(Utf8.Encode(text));
    if h :| h in hashes && verify(secret, h) {
      var i :| 0 <= i < |hashes| && hashes[i] == h;
      assert Strings(hashes)[i] == Json.Str(h);
    }
  }

  lemma {:induction false} StringsAreJson(vs: seq<Json.Value>)
    requires forall i :: 0 <= i < |vs| ==> vs[i].Str?
    ensures Json.AllWellFormed(vs) && Json.NoneUndefined(vs)
  {
    if |vs| != 0 {
      assert forall i :: 0 <= i < |vs[1..]| ==> vs[1..][i] == vs[i + 1];
      StringsAreJson(vs[1..]);
    }
  }

  datatype Metadata = Metadata(clientId: string, clientSecret: string, redirectUris: seq<string>)

  function HashesOf(rows: seq<Secret>): (r: seq<string>)
    ensures |r| == |rows| && forall i :: 0 <= i < |r| ==> r[i] == rows[i].secretHash
  {
    seq(|rows|, i requires 0 <= i < |rows| => rows[i].secretHash)
  }

  function BuildOidcClientMetadata(client: Client, secretHashes: seq<string>): Option<Metadata> {
    if |client.redirectUris| == 0 || "openid" !in client.allowedScopes || |secretHashes| == 0 then None
    else Some(Metadata(client.clientId, EncodeOidcClientSecretHashes(secretHashes), client.redirectUris))
  }

  function UsableSecrets(db: Db, pk: nat, now: int): seq<Secret> {
    Filter((s: Secret) => s.clientPkId == pk && Usable(s, now), NewestFirst(db.secrets))
  }

  function FindClient(db: Db, clientId: string, now: int): Option<Metadata> {
    var found := FindByClientId(db.clients, clientId);
    if found.None? then None else
    var client := db.clients[found.value];
    if client.status != "active" || client.clientType != "confidential"
       || client.tokenEndpointAuthMethod != "client_secret_basic" then None
    else
      BuildOidcClientMetadata(client, HashesOf(UsableSecrets(db, found.value, now)))
  }

  /** The provider finds the client's metadata and the secret verifies against it. */
  ghost predicate OidcAccepts(verify: Verify, db: Db, clientId: string, secret: string, now: int) {
    var metadata := FindClient(db, clientId, now);
    metadata.Some? && Verified(verify, secret, Some(metadata.value.clientSecret)) == Yes
  }

  predicate Buildable(c: Client) {
    && c.clientType == "confidential" && c.tokenEndpointAuthMethod == "client_secret_basic"
    && |c.redirectUris| > 0 && "openid" in c.allowedScopes
  }

  /**
   The provider accepts a secret exactly when the service does from the table and the client's metadata can be built.
   */
  lemma PathsAgree(verify: Verify, db: Db, clientId: string, secret: string, now: int)
    ensures OidcAccepts(verify, db, clientId, secret, now) <==>
            var client := FindActiveByClientId(db.clients, clientId);
            && client.Some? && Buildable(db.clients[client.value])
            && TableAccepts(verify, db, client.value, secret, now)
  {
    hide Verified, EncodeOidcClientSecretHashes, TableAccepts, UsableSecrets;
    var client := FindActiveByClientId(db.clients, clientId);
    if client.Some? {
      VerifyUndoesEncode(verify, secret, HashesOf(UsableSecrets(db, client.value, now)));
      HashesAccept(verify, db, client.value, secret, now);
    }
  }

  lemma HashesAccept(verify: Verify, db: Db, pk: nat, secret: string, now: int)
    ensures (exists h :: h in HashesOf(UsableSecrets(db, pk, now)) && verify(secret, h)) <==>
            TableAccepts(verify, db, pk, secret, now)
  {
    var rows := UsableSecrets(db, pk, now);
    var hashes := HashesOf(rows);
    if TableAccepts(verify, db, pk, secret, now) {
      var s :| s in db.secrets && s.clientPkId == pk && Usable(s, now) && verify(secret, s.secretHash);
      assert s in rows;
      var i :| 0 <= i < |rows| && rows[i] == s;
      assert hashes[i] == s.secretHash;
    }
    if h :| h in hashes && verify(secret, h) {
      var i :| 0 <= i < |hashes| && hashes[i] == h;
      assert rows[i] in rows && rows[i] in db.secrets;
    }
  }
}

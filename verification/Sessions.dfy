/**
 Refresh-token rotation as a protocol: every SQL statement is one atomic step, calls interleave freely.
 Tokens appear only as their hashes.
 */
module Sessions {
  import opened Prelude

  type Hash = nat
  type SessionId = nat
  type UserId = nat
  type CallId = nat

  datatype UserStatus = Active | Deleted | OtherStatus

  datatype Session = Session(
    userId: UserId,
    accessHash: Hash,
    refreshHash: Hash,
    expiresAt: int,
    refreshExpiresAt: int,
    revokedAt: Option<int>,
    lastSeenAt: int)

  datatype Tokens = Tokens(accessHash: Hash, refreshHash: Hash, expiresAt: int, refreshExpiresAt: int)

  datatype Db = Db(sessions: map<SessionId, Session>, users: map<UserId, UserStatus>)

  // ----- the statements -----

  /** where refresh_token_hash = h and revoked_at is null and refresh_expires_at > now, joined with users */
  predicate LiveRefresh(db: Db, h: Hash, now: int, sid: SessionId) {
    && sid in db.sessions
    && db.sessions[sid].refreshHash == h
    && db.sessions[sid].revokedAt.None?
    && db.sessions[sid].refreshExpiresAt > now
    && db.sessions[sid].userId in db.users
  }

  predicate LiveAccess(db: Db, h: Hash, now: int, sid: SessionId) {
    && sid in db.sessions
    && db.sessions[sid].accessHash == h
    && db.sessions[sid].revokedAt.None?
    && db.sessions[sid].expiresAt > now
    && db.sessions[sid].userId in db.users
  }

  ghost predicate FindsRefresh(db: Db, h: Hash, now: int, found: Option<SessionId>) {
    match found
    case Some(sid) => LiveRefresh(db, h, now, sid)
    case None => forall sid :: !LiveRefresh(db, h, now, sid)
  }

  ghost predicate FindsAccess(db: Db, h: Hash, now: int, found: Option<SessionId>) {
    match found
    case Some(sid) => LiveAccess(db, h, now, sid)
    case None => forall sid :: !LiveAccess(db, h, now, sid)
  }

  function Created(db: Db, sid: SessionId, uid: UserId, tokens: Tokens, now: int): Db {
    db.(sessions := db.sessions[sid := Session(uid, tokens.accessHash, tokens.refreshHash, tokens.expiresAt,
                                               tokens.refreshExpiresAt, None, now)])
  }

  /** The compare of the compare-and-set: where id, refresh_token_hash and revoked_at is null. */
  predicate CanRotate(db: Db, sid: SessionId, current: Hash) {
    sid in db.sessions && db.sessions[sid].refreshHash == current && db.sessions[sid].revokedAt.None?
  }

  function Rotated(db: Db, sid: SessionId, current: Hash, tokens: Tokens, now: int): Db {
    if CanRotate(db, sid, current) then
      var s := db.sessions[sid];
      db.(sessions := db.sessions[sid := s.(accessHash := tokens.accessHash, refreshHash := tokens.refreshHash,
                                            expiresAt := tokens.expiresAt,
                                            refreshExpiresAt := tokens.refreshExpiresAt, lastSeenAt := now)])
    else db
  }

  function Revoked(db: Db, sid: SessionId, now: int): Db {
    if sid in db.sessions then
      db.(sessions := db.sessions[sid := db.sessions[sid].(revokedAt := Some(now))])
    else db
  }

  function AllRevoked(db: Db, uid: UserId, now: int): Db {
    db.(sessions := map sid | sid in db.sessions ::
          if db.sessions[sid].userId == uid && db.sessions[sid].revokedAt.None?
          then db.sessions[sid].(revokedAt := Some(now)) else db.sessions[sid])
  }

  /** One transaction: the status moves from active to deleted and every session of the user is revoked. */
  function MarkedDeleted(db: Db, uid: UserId, deletedAt: int): Db {
    if uid in db.users && db.users[uid] == Active then
      Db(map sid | sid in db.sessions ::
           if db.sessions[sid].userId == uid then db.sessions[sid].(revokedAt := Some(deletedAt))
           else db.sessions[sid],
         db.users[uid := Deleted])
    else db
  }

  function Seen(db: Db, sid: SessionId, now: int): Db {
    if sid in db.sessions then db.(sessions := db.sessions[sid := db.sessions[sid].(lastSeenAt := now)]) else db
  }

  /** user_sessions and users, changed in place one statement at a time. */
  class SessionRepository {
    var db: Db

    constructor (db: Db)
      ensures this.db == db
    {
      this.db := db;
    }

    /** An unrevoked, unexpired row with this hash; none only when there is none. */
    method FindByRefreshTokenHash(h: Hash, now: int) returns (found: Option<SessionId>)
      ensures FindsRefresh(db, h, now, found)
      ensures found.Some? ==>
                && found.value in db.sessions && db.sessions[found.value].userId in db.users
                && db.sessions[found.value].refreshHash == h && db.sessions[found.value].revokedAt == None
                && now < db.sessions[found.value].refreshExpiresAt
      ensures found.None? ==> forall sid ::
                !(&& sid in db.sessions && db.sessions[sid].userId in db.users
                  && db.sessions[sid].refreshHash == h && db.sessions[sid].revokedAt == None
                  && now < db.sessions[sid].refreshExpiresAt)
    {
      var hits := set sid | sid in db.sessions && db.sessions[sid].userId in db.users
                            && db.sessions[sid].refreshHash == h && db.sessions[sid].revokedAt == None
                            && now < db.sessions[sid].refreshExpiresAt;
      if hits == {} {
        forall sid ensures !LiveRefresh(db, h, now, sid)
                   ensures !(&& sid in db.sessions && db.sessions[sid].userId in db.users
                             && db.sessions[sid].refreshHash == h && db.sessions[sid].revokedAt == None
                             && now < db.sessions[sid].refreshExpiresAt)
        {
          assert sid !in hits;
        }
        found := None;
      } else {
        var sid :| sid in hits;
        found := Some(sid);
      }
    }

    method FindByAccessTokenHash(h: Hash, now: int) returns (found: Option<SessionId>)
      ensures FindsAccess(db, h, now, found)
      ensures found.Some? ==>
                && found.value in db.sessions && db.sessions[found.value].userId in db.users
                && db.sessions[found.value].accessHash == h && db.sessions[found.value].revokedAt == None
                && now < db.sessions[found.value].expiresAt
      ensures found.None? ==> forall sid ::
                !(&& sid in db.sessions && db.sessions[sid].userId in db.users
                  && db.sessions[sid].accessHash == h && db.sessions[sid].revokedAt == None
                  && now < db.sessions[sid].expiresAt)
    {
      var hits := set sid | sid in db.sessions && db.sessions[sid].userId in db.users
                            && db.sessions[sid].accessHash == h && db.sessions[sid].revokedAt == None
                            && now < db.sessions[sid].expiresAt;
      if hits == {} {
        forall sid ensures !LiveAccess(db, h, now, sid)
                   ensures !(&& sid in db.sessions && db.sessions[sid].userId in db.users
                             && db.sessions[sid].accessHash == h && db.sessions[sid].revokedAt == None
                             && now < db.sessions[sid].expiresAt)
        {
          assert sid !in hits;
        }
        found := None;
      } else {
        var sid :| sid in hits;
        found := Some(sid);
      }
    }

    method Create(sid: SessionId, uid: UserId, tokens: Tokens, now: int)
      modifies this`db
      ensures db == Created(old(db), sid, uid, tokens, now)
    {
      db := db.(sessions := db.sessions[sid := Session(uid, tokens.accessHash, tokens.refreshHash, tokens.expiresAt,
                                                       tokens.refreshExpiresAt, None, now)]);
    }

    method RotateTokens(sid: SessionId, current: Hash, tokens: Tokens, now: int) returns (rotated: bool)
      modifies this`db
      ensures rotated <==> CanRotate(old(db), sid, current)
      ensures db == Rotated(old(db), sid, current, tokens, now)
    {
      rotated := CanRotate(db, sid, current);
      if rotated {
        var row := db.sessions[sid];
        row := row.(accessHash := tokens.accessHash, refreshHash := tokens.refreshHash);
        row := row.(expiresAt := tokens.expiresAt, refreshExpiresAt := tokens.refreshExpiresAt, lastSeenAt := now);
        db := db.(sessions := db.sessions[sid := row]);
      }
    }

    method Revoke(sid: SessionId, now: int)
      modifies this`db
      ensures db == Revoked(old(db), sid, now)
    {
      if sid in db.sessions {
        db := db.(sessions := db.sessions[sid := db.sessions[sid].(revokedAt := Some(now))]);
      }
    }

    method RevokeAllByUserId(uid: UserId, now: int)
      modifies this`db
      ensures db == AllRevoked(old(db), uid, now)
      ensures db.users == old(db).users && db.sessions.Keys == old(db).sessions.Keys
      ensures forall sid :: sid in db.sessions ==>
                var row := old(db).sessions[sid];
                db.sessions[sid] ==
                if row.userId == uid && row.revokedAt == None then row.(revokedAt := Some(now)) else row
    {
      var rows := db.sessions;
      var todo := set sid | sid in rows && rows[sid].userId == uid && rows[sid].revokedAt.None?;
      while todo != {}
        invariant todo <= rows.Keys && rows.Keys == db.sessions.Keys && db == old(db)
        invariant forall sid :: sid in todo ==>
                    rows[sid] == db.sessions[sid] && rows[sid].userId == uid && rows[sid].revokedAt.None?
        invariant forall sid :: sid in rows && sid !in todo ==>
                    rows[sid] == AllRevoked(db, uid, now).sessions[sid]
        decreases todo
      {
        var sid :| sid in todo;
        rows := rows[sid := rows[sid].(revokedAt := Some(now))];
        todo := todo - {sid};
      }
      assert rows == AllRevoked(db, uid, now).sessions;
      db := db.(sessions := rows);
    }

    method MarkAsDeleted(uid: UserId, deletedAt: int) returns (updated: bool)
      modifies this`db
      ensures updated <==> uid in old(db).users && old(db).users[uid] == Active
      ensures db == MarkedDeleted(old(db), uid, deletedAt)
    {
      updated := uid in db.users && db.users[uid] == Active;
      if updated {
        db := Db(map sid | sid in db.sessions ::
                   if db.sessions[sid].userId == uid then db.sessions[sid].(revokedAt := Some(deletedAt))
                   else db.sessions[sid],
                 db.users[uid := Deleted]);
      }
    }

    method UpdateLastSeen(sid: SessionId, now: int)
      modifies this`db
      ensures db == Seen(old(db), sid, now)
    {
      if sid in db.sessions {
        db := db.(sessions := db.sessions[sid := db.sessions[sid].(lastSeenAt := now)]);
      }
    }
  }

  datatype Lookup = NotFound | Inactive | LetThrough(sid: SessionId)

  /** The one session with this refresh hash that is live; the table's unique hashes allow no second. */
  ghost predicate OnlyLive(db: Db, h: Hash, now: int, sid: SessionId) {
    LiveRefresh(db, h, now, sid) && forall other :: LiveRefresh(db, h, now, other) ==> other == sid
  }

  /** The first half of AuthService.refresh: the query and the status check. */
  method RefreshLookup(repo: SessionRepository, h: Hash, now: int) returns (r: Lookup)
    ensures r.NotFound? <==> FindsRefresh(repo.db, h, now, None)
    ensures r.LetThrough? ==>
              && r.sid in repo.db.sessions && repo.db.sessions[r.sid].userId in repo.db.users
              && repo.db.users[repo.db.sessions[r.sid].userId] == Active
              && repo.db.sessions[r.sid].refreshHash == h && repo.db.sessions[r.sid].revokedAt == None
              && now < repo.db.sessions[r.sid].refreshExpiresAt
    ensures r.Inactive? ==> exists sid :: LiveRefresh(repo.db, h, now, sid) &&
                                           repo.db.users[repo.db.sessions[sid].userId] != Active
    ensures forall sid :: OnlyLive(repo.db, h, now, sid) ==>
              r == if repo.db.users[repo.db.sessions[sid].userId] == Active then LetThrough(sid) else Inactive
  {
    var session := repo.FindByRefreshTokenHash(h, now);
    if session.None? {
      return NotFound;
    }
    if repo.db.users[repo.db.sessions[session.value].userId] != Active {
      return Inactive;
    }
    return LetThrough(session.value);
  }

  /** The second half, from whatever the table has become: rotate, or revoke the session as reused. */
  method RefreshFinish(repo: SessionRepository, sid: SessionId, h: Hash, tokens: Tokens, now: int)
    returns (refreshed: bool)
    modifies repo`db
    ensures refreshed <==> CanRotate(old(repo.db), sid, h)
    ensures repo.db == if refreshed then Rotated(old(repo.db), sid, h, tokens, now)
                       else Revoked(old(repo.db), sid, now)
  {
    refreshed := repo.RotateTokens(sid, h, tokens, now);
    if !refreshed {
      repo.Revoke(sid, now);
    }
  }

  // ----- the protocol -----

  datatype CallState =
    | RefreshFound(h: Hash, sid: SessionId, uid: UserId, status: UserStatus)
    | RefreshChecked(h: Hash, sid: SessionId, uid: UserId)
    | RefreshLost(h: Hash, sid: SessionId)
    | RefreshWon(h: Hash, sid: SessionId)
    | RefreshReused(h: Hash, sid: SessionId)
    | AuthFound(sid: SessionId, uid: UserId, status: UserStatus, expiresAt: int)
    | AuthChecked(sid: SessionId, uid: UserId)
    | Authenticated(sid: SessionId, uid: UserId)
    | Rejected

  datatype Win = Win(h: Hash, sid: SessionId, call: CallId)

  /** The tables, the clock, the calls under way or done, the rotations won, and every hash ever issued. */
  datatype System = System(db: Db, now: int, calls: map<CallId, CallState>, wins: seq<Win>, issued: set<Hash>)

  datatype Event =
    | Tick(elapsed: nat)
    | Login(sid: SessionId, uid: UserId, tokens: Tokens)
    | RefreshFind(call: CallId, h: Hash, found: Option<SessionId>)
    | RefreshCheck(call: CallId)
    | RefreshRotate(call: CallId, tokens: Tokens)
    | RefreshRevoke(call: CallId)
    | RevokeSession(sid: SessionId)
    | RevokeAll(uid: UserId)
    | MarkDeleted(uid: UserId)
    | AuthFind(call: CallId, h: Hash, found: Option<SessionId>)
    | AuthCheck(call: CallId)
    | AuthTouch(call: CallId)

  /** New tokens are random: their hashes were never issued before and differ. */
  predicate FreshTokens(s: System, t: Tokens) {
    t.accessHash !in s.issued && t.refreshHash !in s.issued && t.accessHash != t.refreshHash
  }

  ghost predicate Enabled(s: System, e: Event) {
    match e
    case Tick(_) => true
    case Login(sid, uid, tokens) => sid !in s.db.sessions && uid in s.db.users && FreshTokens(s, tokens)
    case RefreshFind(c, h, found) => c !in s.calls && FindsRefresh(s.db, h, s.now, found)
    case RefreshCheck(c) => c in s.calls && s.calls[c].RefreshFound?
    case RefreshRotate(c, tokens) => c in s.calls && s.calls[c].RefreshChecked? && FreshTokens(s, tokens)
    case RefreshRevoke(c) => c in s.calls && s.calls[c].RefreshLost?
    case RevokeSession(_) => true
    case RevokeAll(_) => true
    case MarkDeleted(_) => true
    case AuthFind(c, h, found) => c !in s.calls && FindsAccess(s.db, h, s.now, found)
    case AuthCheck(c) => c in s.calls && s.calls[c].AuthFound?
    case AuthTouch(c) => c in s.calls && s.calls[c].AuthChecked?
  }

  ghost function Step(s: System, e: Event): System
    requires Enabled(s, e)
  {
    match e
    case Tick(elapsed) => s.(now := s.now + elapsed)
    case Login(sid, uid, tokens) =>
      s.(db := Created(s.db, sid, uid, tokens, s.now),
         issued := s.issued + {tokens.accessHash, tokens.refreshHash})
    case RefreshFind(c, h, found) =>
      (match found
       case None => s.(calls := s.calls[c := Rejected])
       case Some(sid) =>
         var uid := s.db.sessions[sid].userId;
         s.(calls := s.calls[c := RefreshFound(h, sid, uid, s.db.users[uid])]))
    case RefreshCheck(c) =>
      var f := s.calls[c];
      s.(calls := s.calls[c := if f.status == Active then RefreshChecked(f.h, f.sid, f.uid) else Rejected])
    case RefreshRotate(c, tokens) =>
      var f := s.calls[c];
      if CanRotate(s.db, f.sid, f.h) then
        System(Rotated(s.db, f.sid, f.h, tokens, s.now), s.now, s.calls[c := RefreshWon(f.h, f.sid)],
               s.wins + [Win(f.h, f.sid, c)], s.issued + {tokens.accessHash, tokens.refreshHash})
      else s.(calls := s.calls[c := RefreshLost(f.h, f.sid)])
    case RefreshRevoke(c) =>
      var f := s.calls[c];
      s.(db := Revoked(s.db, f.sid, s.now), calls := s.calls[c := RefreshReused(f.h, f.sid)])
    case RevokeSession(sid) => s.(db := Revoked(s.db, sid, s.now))
    case RevokeAll(uid) => s.(db := AllRevoked(s.db, uid, s.now))
    case MarkDeleted(uid) => s.(db := MarkedDeleted(s.db, uid, s.now))
    case AuthFind(c, h, found) =>
      (match found
       case None => s.(calls := s.calls[c := Rejected])
       case Some(sid) =>
         var row := s.db.sessions[sid];
         s.(calls := s.calls[c := AuthFound(sid, row.userId, s.db.users[row.userId], row.expiresAt)]))
    case AuthCheck(c) =>
      var f := s.calls[c];
      s.(calls := s.calls[c := if f.expiresAt < s.now || f.status != Active then Rejected
                               else AuthChecked(f.sid, f.uid)])
    case AuthTouch(c) =>
      var f := s.calls[c];
      s.(db := Seen(s.db, f.sid, s.now), calls := s.calls[c := Authenticated(f.sid, f.uid)])
  }

  ghost predicate Run(s: System, es: seq<Event>, t: System)
    decreases |es|
  {
    if |es| == 0 then s == t
    else Enabled(s, es[0]) && Run(Step(s, es[0]), es[1..], t)
  }

  lemma FindsSomething(s: System, c: CallId, h: Hash)
    requires c !in s.calls
    ensures exists found :: Enabled(s, RefreshFind(c, h, found))
    ensures exists found :: Enabled(s, AuthFind(c, h, found))
  {
    if sid :| LiveRefresh(s.db, h, s.now, sid) {
      assert Enabled(s, RefreshFind(c, h, Some(sid)));
    } else {
      assert Enabled(s, RefreshFind(c, h, None));
    }
    if sid :| LiveAccess(s.db, h, s.now, sid) {
      assert Enabled(s, AuthFind(c, h, Some(sid)));
    } else {
      assert Enabled(s, AuthFind(c, h, None));
    }
  }

  /** The calls do not wait for one another: each can begin once at any time, and each under way has its next step. */
  lemma CallsProceed(s: System, c: CallId, h: Hash, sid: SessionId, uid: UserId, elapsed: nat)
    ensures Enabled(s, Tick(elapsed))
    ensures Enabled(s, RevokeSession(sid)) && Enabled(s, RevokeAll(uid)) && Enabled(s, MarkDeleted(uid))
    ensures sid !in s.db.sessions && uid in s.db.users ==> exists tokens :: Enabled(s, Login(sid, uid, tokens))
    ensures c !in s.calls ==> exists found :: Enabled(s, RefreshFind(c, h, found))
    ensures c !in s.calls ==> exists found :: Enabled(s, AuthFind(c, h, found))
    ensures forall found :: Enabled(s, RefreshFind(c, h, found)) || Enabled(s, AuthFind(c, h, found)) ==> c !in s.calls
    ensures forall tokens :: Enabled(s, Login(sid, uid, tokens)) ==>
              && sid !in s.db.sessions && uid in s.db.users && tokens.accessHash != tokens.refreshHash
              && tokens.accessHash !in s.issued && tokens.refreshHash !in s.issued
    ensures c in s.calls ==>
              match s.calls[c]
              case RefreshFound(_, _, _, _) => Enabled(s, RefreshCheck(c))
              case RefreshChecked(_, _, _) => exists tokens :: Enabled(s, RefreshRotate(c, tokens))
              case RefreshLost(_, _) => Enabled(s, RefreshRevoke(c))
              case AuthFound(_, _, _, _) => Enabled(s, AuthCheck(c))
              case AuthChecked(_, _) => Enabled(s, AuthTouch(c))
              case _ => true
  {
    var n := NewHash(s.issued);
    var tokens := Tokens(n, n + 1, 0, 0);
    assert FreshTokens(s, tokens);
    assert sid !in s.db.sessions && uid in s.db.users ==> Enabled(s, Login(sid, uid, tokens));
    if c in s.calls {
      assert s.calls[c].RefreshChecked? ==> Enabled(s, RefreshRotate(c, tokens));
    } else {
      FindsSomething(s, c, h);
    }
  }

  // ----- what every step keeps -----

  predicate IsRevoked(db: Db, sid: SessionId) {
    sid in db.sessions && db.sessions[sid].revokedAt.Some?
  }

  predicate Spent(s: System, h: Hash, sid: SessionId) {
    exists i :: 0 <= i < |s.wins| && s.wins[i].h == h && s.wins[i].sid == sid
  }

  /** h is, or once was, the refresh hash of session sid. */
  predicate Owned(s: System, h: Hash, sid: SessionId) {
    sid in s.db.sessions && (s.db.sessions[sid].refreshHash == h || Spent(s, h, sid))
  }

  predicate HashesIssued(s: System) {
    && (forall sid :: sid in s.db.sessions ==> s.db.sessions[sid].refreshHash in s.issued)
    && (forall i :: 0 <= i < |s.wins| ==> s.wins[i].h in s.issued)
  }

  predicate HashesUnique(s: System) {
    && (forall a, b :: a in s.db.sessions && b in s.db.sessions && a != b ==>
          s.db.sessions[a].refreshHash != s.db.sessions[b].refreshHash)
    && (forall i, sid :: 0 <= i < |s.wins| && sid in s.db.sessions ==> s.db.sessions[sid].refreshHash != s.wins[i].h)
    && (forall i, j :: 0 <= i < j < |s.wins| ==> s.wins[i].h != s.wins[j].h)
  }

  /** A deleted user's sessions that some refresh has already let through are revoked. */
  predicate StillGood(s: System, sid: SessionId, uid: UserId) {
    && sid in s.db.sessions
    && s.db.sessions[sid].userId == uid
    && uid in s.db.users
    && (s.db.users[uid] == Active || IsRevoked(s.db, sid))
  }

  predicate CallGood(s: System, c: CallId)
    requires c in s.calls
  {
    match s.calls[c]
    case RefreshFound(h, sid, uid, status) => Owned(s, h, sid) && (status == Active ==> StillGood(s, sid, uid))
    case RefreshChecked(h, sid, uid) => Owned(s, h, sid) && StillGood(s, sid, uid)
    case RefreshLost(h, sid) => Owned(s, h, sid)
    case RefreshWon(h, sid) => Win(h, sid, c) in s.wins
    case RefreshReused(h, sid) => Owned(s, h, sid) && IsRevoked(s.db, sid)
    case _ => true
  }

  predicate CallsGood(s: System) {
    forall c :: c in s.calls ==> CallGood(s, c)
  }

  predicate WinsKnown(s: System) {
    forall i :: 0 <= i < |s.wins| ==> s.wins[i].sid in s.db.sessions
  }

  predicate Inv(s: System) {
    HashesIssued(s) && HashesUnique(s) && CallsGood(s) && WinsKnown(s)
  }

  /** No calls yet; stored refresh hashes are issued and unique, as the table's constraint says. */
  predicate Initial(s: System) {
    && s.calls == map[] && s.wins == []
    && HashesIssued(s) && HashesUnique(s)
  }

  lemma StepKeepsHashes(s: System, e: Event)
    requires Enabled(s, e) && HashesIssued(s) && HashesUnique(s)
    ensures HashesIssued(Step(s, e)) && HashesUnique(Step(s, e))
  {
  }

  /** Nothing un-revokes a session, moves it to another user, or revives a deleted user. */
  lemma StepKeepsFacts(s: System, e: Event)
    requires Enabled(s, e)
    ensures var t := Step(s, e);
            && s.db.sessions.Keys <= t.db.sessions.Keys
            && s.db.users.Keys == t.db.users.Keys
            && s.wins <= t.wins
            && (forall sid :: sid in s.db.sessions ==> t.db.sessions[sid].userId == s.db.sessions[sid].userId)
            && (forall sid :: IsRevoked(s.db, sid) ==> IsRevoked(t.db, sid))
            && (forall uid :: uid in s.db.users && s.db.users[uid] != Active ==> t.db.users[uid] == s.db.users[uid])
            && (forall uid, sid :: uid in s.db.users && s.db.users[uid] == Active && t.db.users[uid] != Active
                                   && sid in s.db.sessions && s.db.sessions[sid].userId == uid ==>
                  IsRevoked(t.db, sid))
  {
  }

  lemma StepKeepsOwned(s: System, e: Event, h: Hash, sid: SessionId)
    requires Enabled(s, e) && Owned(s, h, sid)
    ensures Owned(Step(s, e), h, sid)
  {
    var t := Step(s, e);
    StepKeepsFacts(s, e);
    if Spent(s, h, sid) {
      var i :| 0 <= i < |s.wins| && s.wins[i].h == h && s.wins[i].sid == sid;
      assert t.wins[i] == s.wins[i];
    } else if t.db.sessions[sid].refreshHash != h {
      assert t.wins[|s.wins|].h == h && t.wins[|s.wins|].sid == sid;
    }
  }

  lemma StepKeepsOtherCall(s: System, e: Event, c: CallId)
    requires Enabled(s, e) && Inv(s) && c in s.calls && c in Step(s, e).calls && Step(s, e).calls[c] == s.calls[c]
    ensures CallGood(Step(s, e), c)
  {
    var t := Step(s, e);
    StepKeepsFacts(s, e);
    assert CallGood(s, c);
    match s.calls[c]
    case RefreshFound(h, sid, uid, status) => StepKeepsOwned(s, e, h, sid);
    case RefreshChecked(h, sid, uid) => StepKeepsOwned(s, e, h, sid);
    case RefreshLost(h, sid) => StepKeepsOwned(s, e, h, sid);
    case RefreshReused(h, sid) => StepKeepsOwned(s, e, h, sid);
    case RefreshWon(h, sid) => assert Win(h, sid, c) in s.wins && s.wins <= t.wins;
    case _ =>
  }

  lemma StepMakesCallGood(s: System, e: Event, c: CallId)
    requires Enabled(s, e) && Inv(s) && c in Step(s, e).calls
    requires c !in s.calls || Step(s, e).calls[c] != s.calls[c]
    ensures CallGood(Step(s, e), c)
  {
    var t := Step(s, e);
    StepKeepsFacts(s, e);
    if c in s.calls {
      assert CallGood(s, c);
    }
    match e
    case RefreshRotate(_, _) =>
      assert t.calls[c].RefreshWon? ==> t.wins[|s.wins|] == Win(t.calls[c].h, t.calls[c].sid, c);
      if t.calls[c].RefreshLost? { StepKeepsOwned(s, e, s.calls[c].h, s.calls[c].sid); }
    case RefreshRevoke(_) => StepKeepsOwned(s, e, s.calls[c].h, s.calls[c].sid);
    case _ =>
  }

  lemma StepKeepsInv(s: System, e: Event)
    requires Enabled(s, e) && Inv(s)
    ensures Inv(Step(s, e))
  {
    var t := Step(s, e);
    StepKeepsHashes(s, e);
    StepKeepsFacts(s, e);
    forall c | c in t.calls ensures CallGood(t, c) {
      if c in s.calls && t.calls[c] == s.calls[c] {
        StepKeepsOtherCall(s, e, c);
      } else {
        StepMakesCallGood(s, e, c);
      }
    }
    forall i | 0 <= i < |t.wins| ensures t.wins[i].sid in t.db.sessions {
      if i < |s.wins| { assert t.wins[i] == s.wins[i]; }
    }
  }

  lemma {:induction false} RunKeepsInv(s: System, es: seq<Event>, t: System)
    requires Run(s, es, t) && Inv(s)
    ensures Inv(t)
    decreases |es|
  {
    if |es| != 0 {
      StepKeepsInv(s, es[0]);
      RunKeepsInv(Step(s, es[0]), es[1..], t);
    }
  }

  // ----- the theorems -----

  /** Under every interleaving each refresh-token hash wins the rotation at most once. */
  lemma OneWinPerHash(s: System, es: seq<Event>, t: System)
    requires Initial(s) && Run(s, es, t)
    ensures forall i, j :: 0 <= i < j < |t.wins| ==> t.wins[i].h != t.wins[j].h
  {
    RunKeepsInv(s, es, t);
  }

  lemma OwnerUnique(s: System, h: Hash, a: SessionId, b: SessionId)
    requires Inv(s) && Owned(s, h, a) && Owned(s, h, b)
    ensures a == b
  {
  }

  predicate Finished(s: System, c: CallId, h: Hash) {
    c in s.calls && (s.calls[c].RefreshWon? || s.calls[c].RefreshReused?) && s.calls[c].h == h
  }

  /**
   Reuse detection: if two calls with the same token both got through the lookup and the status check,
   then once both are done they were about one session and it is revoked.
   */
  lemma ReuseRevokes(s: System, es: seq<Event>, t: System, c: CallId, d: CallId, h: Hash)
    requires Initial(s) && Run(s, es, t)
    requires c != d && Finished(t, c, h) && Finished(t, d, h)
    ensures t.calls[c].sid == t.calls[d].sid && IsRevoked(t.db, t.calls[c].sid)
  {
    RunKeepsInv(s, es, t);
    WonIsOwned(t, c);
    WonIsOwned(t, d);
    OwnerUnique(t, h, t.calls[c].sid, t.calls[d].sid);
    if t.calls[c].RefreshWon? && t.calls[d].RefreshWon? {
      WinnerUnique(t, h, t.calls[c].sid, c, t.calls[d].sid, d);
    }
  }

  lemma WinnerUnique(s: System, h: Hash, a: SessionId, c: CallId, b: SessionId, d: CallId)
    requires Inv(s) && Win(h, a, c) in s.wins && Win(h, b, d) in s.wins
    ensures c == d
  {
    var i :| 0 <= i < |s.wins| && s.wins[i] == Win(h, a, c);
    var j :| 0 <= j < |s.wins| && s.wins[j] == Win(h, b, d);
  }

  lemma WonIsOwned(s: System, c: CallId)
    requires Inv(s) && c in s.calls && (s.calls[c].RefreshWon? || s.calls[c].RefreshReused?)
    ensures Owned(s, s.calls[c].h, s.calls[c].sid)
    ensures s.calls[c].RefreshReused? ==> IsRevoked(s.db, s.calls[c].sid)
    ensures s.calls[c].RefreshWon? ==> Win(s.calls[c].h, s.calls[c].sid, c) in s.wins
  {
    assert CallGood(s, c);
    if s.calls[c].RefreshWon? {
      var i :| 0 <= i < |s.wins| && s.wins[i] == Win(s.calls[c].h, s.calls[c].sid, c);
    }
  }

  /** A revoked session stays revoked and never rotates again, whatever calls were already under way. */
  lemma {:induction false} RevokedNeverRotates(s: System, es: seq<Event>, t: System, sid: SessionId)
    requires Run(s, es, t) && IsRevoked(s.db, sid)
    ensures IsRevoked(t.db, sid) && s.wins <= t.wins
    ensures forall i :: |s.wins| <= i < |t.wins| ==> t.wins[i].sid != sid
    decreases |es|
  {
    if |es| != 0 {
      var m := Step(s, es[0]);
      StepKeepsFacts(s, es[0]);
      RevokedNeverRotates(m, es[1..], t, sid);
      forall i | |s.wins| <= i < |t.wins| ensures t.wins[i].sid != sid {
        if i < |m.wins| { assert t.wins[i] == m.wins[i]; }
      }
    }
  }

  // ----- expiry -----

  /** c was let through, or will be, with the refresh token session sid still has. */
  predicate HoldsToken(s: System, c: CallId, sid: SessionId) {
    && sid in s.db.sessions && s.db.sessions[sid].revokedAt == None && c in s.calls
    && match s.calls[c]
       case RefreshFound(h, found, _, status) =>
         found == sid && h == s.db.sessions[sid].refreshHash && status == Active
       case RefreshChecked(h, found, _) => found == sid && h == s.db.sessions[sid].refreshHash
       case _ => false
  }

  /** The session's refresh token has expired, and no call under way was let through with it before. */
  ghost predicate ExpiredUnheld(s: System, sid: SessionId) {
    sid in s.db.sessions && s.db.sessions[sid].refreshExpiresAt <= s.now && forall c :: !HoldsToken(s, c, sid)
  }

  lemma StepKeepsExpired(s: System, e: Event, sid: SessionId)
    requires Enabled(s, e) && ExpiredUnheld(s, sid)
    ensures ExpiredUnheld(Step(s, e), sid)
    ensures s.wins <= Step(s, e).wins && forall i :: |s.wins| <= i < |Step(s, e).wins| ==> Step(s, e).wins[i].sid != sid
  {
    var t := Step(s, e);
    if e.RefreshRotate? {
      assert !HoldsToken(s, e.call, sid);
    }
    forall c ensures !HoldsToken(t, c, sid) {
      assert !HoldsToken(s, c, sid);
    }
  }

  lemma {:induction false} ExpiredNeverRotates(s: System, es: seq<Event>, t: System, sid: SessionId)
    requires Run(s, es, t) && ExpiredUnheld(s, sid)
    ensures ExpiredUnheld(t, sid) && s.wins <= t.wins
    ensures forall i :: |s.wins| <= i < |t.wins| ==> t.wins[i].sid != sid
    decreases |es|
  {
    if |es| != 0 {
      var m := Step(s, es[0]);
      StepKeepsExpired(s, es[0], sid);
      hide ExpiredUnheld;
      ExpiredNeverRotates(m, es[1..], t, sid);
      forall i | |s.wins| <= i < |t.wins| ensures t.wins[i].sid != sid {
        if i < |m.wins| { assert t.wins[i] == m.wins[i]; }
      }
    }
  }

  ghost predicate CanRotateLater(s: System, sid: SessionId) {
    exists es, t, i :: Run(s, es, t) && |s.wins| <= i < |t.wins| && t.wins[i].sid == sid
  }

  lemma {:induction false} NewHash(issued: set<Hash>) returns (h: Hash)
    ensures forall x :: x in issued ==> x < h
  {
    if issued == {} {
      h := 0;
    } else {
      var x :| x in issued;
      var rest := NewHash(issued - {x});
      h := if rest > x then rest else x + 1;
      assert issued == (issued - {x}) + {x};
    }
  }

  lemma HeldTokenRotates(s: System, c: CallId, sid: SessionId)
    requires c in s.calls && s.calls[c].RefreshChecked? && HoldsToken(s, c, sid)
    ensures CanRotateLater(s, sid)
  {
    var h := NewHash(s.issued);
    var e := RefreshRotate(c, Tokens(h, h + 1, 0, 0));
    assert FreshTokens(s, e.tokens);
    var t := Step(s, e);
    assert [e][1..] == [] && Run(t, [], t);
    assert Run(s, [e], t) && t.wins[|s.wins|].sid == sid;
  }

  /**
   Once a session's refresh token has expired, the session can rotate again exactly if a call that was let through with
   that token before is still under way: no call begun after that moment does it.
   */
  lemma ExpiredRotatesExactly(s: System, sid: SessionId)
    requires sid in s.db.sessions && s.db.sessions[sid].refreshExpiresAt <= s.now
    ensures CanRotateLater(s, sid) <==> exists c :: HoldsToken(s, c, sid)
  {
    if forall c :: !HoldsToken(s, c, sid) {
      if CanRotateLater(s, sid) {
        var es, t, i :| Run(s, es, t) && |s.wins| <= i < |t.wins| && t.wins[i].sid == sid;
        ExpiredNeverRotates(s, es, t, sid);
      }
    } else {
      var c :| HoldsToken(s, c, sid);
      if s.calls[c].RefreshChecked? {
        HeldTokenRotates(s, c, sid);
      } else {
        var e := RefreshCheck(c);
        var m := Step(s, e);
        HeldTokenRotates(m, c, sid);
        var es, t, i :| Run(m, es, t) && |m.wins| <= i < |t.wins| && t.wins[i].sid == sid;
        assert ([e] + es)[1..] == es;
        assert Run(s, [e] + es, t);
      }
    }
  }

  /** c has read session sid's row but not yet answered, or has already answered. */
  predicate PastLookup(s: System, c: CallId, sid: SessionId) {
    c in s.calls && match s.calls[c]
                    case AuthFound(f, _, status, expiresAt) => f == sid && status == Active && expiresAt >= s.now
                    case AuthChecked(f, _) => f == sid
                    case Authenticated(f, _) => f == sid
                    case _ => false
  }

  predicate IsAuthenticated(s: System, c: CallId, sid: SessionId) {
    c in s.calls && s.calls[c].Authenticated? && s.calls[c].sid == sid
  }

  ghost predicate CanAuthenticate(s: System, c: CallId, sid: SessionId) {
    exists es, t :: Run(s, es, t) && IsAuthenticated(t, c, sid)
  }

  lemma {:induction false} OnlyPastLookup(s: System, es: seq<Event>, t: System, c: CallId, sid: SessionId)
    requires Run(s, es, t) && IsRevoked(s.db, sid) && IsAuthenticated(t, c, sid)
    ensures PastLookup(s, c, sid)
    decreases |es|
  {
    if |es| != 0 {
      StepKeepsFacts(s, es[0]);
      OnlyPastLookup(Step(s, es[0]), es[1..], t, c, sid);
    }
  }

  /**
   Once a session is revoked, a call can still authenticate as it exactly when that call had read the row before:
   authenticateAccessToken does not look again after its query.
   */
  lemma RevokedAuthenticatesExactly(s: System, c: CallId, sid: SessionId)
    requires IsRevoked(s.db, sid)
    ensures CanAuthenticate(s, c, sid) <==> PastLookup(s, c, sid)
  {
    if CanAuthenticate(s, c, sid) {
      var es, t :| Run(s, es, t) && IsAuthenticated(t, c, sid);
      OnlyPastLookup(s, es, t, c, sid);
    }
    if PastLookup(s, c, sid) {
      if s.calls[c].Authenticated? {
        assert Run(s, [], s);
      } else if s.calls[c].AuthChecked? {
        var _, _ := FinishAuth(s, c, sid);
      } else {
        var m := Step(s, AuthCheck(c));
        var es, t := FinishAuth(m, c, sid);
        assert ([AuthCheck(c)] + es)[1..] == es;
        assert Run(s, [AuthCheck(c)] + es, t);
      }
    }
  }

  lemma FinishAuth(s: System, c: CallId, sid: SessionId) returns (es: seq<Event>, t: System)
    requires c in s.calls && s.calls[c].AuthChecked? && s.calls[c].sid == sid
    ensures Run(s, es, t) && IsAuthenticated(t, c, sid)
  {
    t := Step(s, AuthTouch(c));
    es := [AuthTouch(c)];
    assert es[1..] == [];
    assert Run(t, [], t);
  }

  /** After a user is deleted no session of that user rotates, not even through calls already let in. */
  lemma {:induction false} DeletedNeverRotates(s: System, es: seq<Event>, t: System, uid: UserId)
    requires Inv(s) && Run(s, es, t)
    requires uid in s.db.users && s.db.users[uid] == Deleted
    ensures s.wins <= t.wins
    ensures forall i :: |s.wins| <= i < |t.wins| ==>
              t.wins[i].sid in t.db.sessions && t.db.sessions[t.wins[i].sid].userId != uid
    decreases |es|
  {
    RunKeepsInv(s, es, t);
    if |es| != 0 {
      var e := es[0];
      var m := Step(s, e);
      StepKeepsInv(s, e);
      StepKeepsFacts(s, e);
      DeletedNeverRotates(m, es[1..], t, uid);
      if |m.wins| > |s.wins| {
        assert CallGood(s, e.call);
        RunKeepsUser(m, es[1..], t, m.wins[|s.wins|].sid);
      }
      forall i | |s.wins| <= i < |t.wins| ensures t.db.sessions[t.wins[i].sid].userId != uid {
        if i < |m.wins| { assert t.wins[i] == m.wins[i]; }
      }
    }
  }

  lemma {:induction false} RunKeepsUser(s: System, es: seq<Event>, t: System, sid: SessionId)
    requires Run(s, es, t) && sid in s.db.sessions
    ensures sid in t.db.sessions && t.db.sessions[sid].userId == s.db.sessions[sid].userId
    decreases |es|
  {
    if |es| != 0 {
      StepKeepsFacts(s, es[0]);
      RunKeepsUser(Step(s, es[0]), es[1..], t, sid);
    }
  }

  /** A call that begins after a user is deleted never authenticates as that user. */
  lemma {:induction false} DeletedNeverAuthenticates(s: System, es: seq<Event>, t: System, uid: UserId, c: CallId)
    requires Run(s, es, t) && uid in s.db.users && s.db.users[uid] == Deleted
    requires c in s.calls ==>
               !(s.calls[c].AuthFound? && s.calls[c].uid == uid && s.calls[c].status == Active)
               && !((s.calls[c].AuthChecked? || s.calls[c].Authenticated?) && s.calls[c].uid == uid)
    ensures c in t.calls && t.calls[c].Authenticated? ==> t.calls[c].uid != uid
    decreases |es|
  {
    if |es| != 0 {
      StepKeepsFacts(s, es[0]);
      DeletedNeverAuthenticates(Step(s, es[0]), es[1..], t, uid, c);
    }
  }

  // ----- introspection -----

  /** introspectToken answers active for this row. */
  predicate IntrospectsActive(db: Db, sid: SessionId, now: int) {
    && sid in db.sessions
    && db.sessions[sid].userId in db.users
    && db.sessions[sid].revokedAt.None?
    && db.sessions[sid].expiresAt > now
    && db.users[db.sessions[sid].userId] == Active
  }

  /** Introspection says active exactly for tokens whose authentication, run alone, would succeed. */
  lemma IntrospectionAgrees(s: System, h: Hash, sid: SessionId, c: CallId)
    requires c !in s.calls && sid in s.db.sessions && s.db.sessions[sid].accessHash == h
    ensures IntrospectsActive(s.db, sid, s.now) <==>
            LiveAccess(s.db, h, s.now, sid) &&
            var a := Step(s, AuthFind(c, h, Some(sid)));
            var b := Step(a, AuthCheck(c));
            b.calls[c].AuthChecked? && IsAuthenticated(Step(b, AuthTouch(c)), c, sid)
  {
  }
}

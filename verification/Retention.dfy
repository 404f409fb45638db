/** The data-retention job: chunked select-and-process loops over sessions, security events and audit logs. */
module Retention {
  import opened Prelude

  type Id = nat
  type UserId = nat

  datatype Session = Session(userId: UserId, refreshExpiresAt: int, ipAddress: Option<string>,
      userAgent: Option<string>)

  datatype Event = Event(userId: Option<UserId>, payload: string, createdAt: int)

  datatype Log = Log(actorUserId: Option<UserId>, action: string, resourceId: Option<string>, payload: string,
      createdAt: int)

  datatype Hold = Hold(userId: UserId, expiresAt: Option<int>)

  const EMPTY_PAYLOAD := "{}"

  // ----- the generic loop -----

  /** One turn's effect: the chosen rows are changed, or deleted where the change is None. */
  function Apply<V>(t: map<Id, V>, ids: set<Id>, change: V -> Option<V>): map<Id, V> {
    map id | id in t && (id in ids ==> change(t[id]).Some?) :: if id in ids then change(t[id]).value else t[id]
  }

  function Matches<V>(t: map<Id, V>, where: V -> bool): set<Id> {
    set id | id in t && where(t[id])
  }

  /** select id ... limit n: some n of the matching rows, or all of them. */
  predicate IsChunk(ids: set<Id>, matching: set<Id>, n: nat) {
    ids <= matching && |ids| == if |matching| < n then |matching| else n
  }

  method SelectIds(matching: set<Id>, n: nat) returns (ids: set<Id>)
    ensures IsChunk(ids, matching, n)
  {
    ids := {};
    var rest := matching;
    while |ids| < n && rest != {}
      invariant ids <= matching && rest == matching - ids && |ids| <= n
      decreases rest
    {
      var id :| id in rest;
      ids := ids + {id};
      rest := rest - {id};
    }
    if rest == {} {
      assert ids == matching;
    } else {
      SubsetSize(ids, matching);
    }
  }

  lemma SubsetSize<T>(a: set<T>, b: set<T>)
    requires a <= b
    ensures |a| <= |b| && |b - a| == |b| - |a|
  {
    assert b == a + (b - a);
  }

  /** A processed row stops matching, because it is gone or because the query excludes it. */
  ghost predicate Progresses<V(!new)>(where: V -> bool, change: V -> Option<V>) {
    forall v :: where(v) && change(v).Some? ==> !where(change(v).value)
  }

  /** A processed row keeps matching. */
  ghost predicate Stuck<V(!new)>(where: V -> bool, change: V -> Option<V>) {
    forall v :: where(v) ==> change(v).Some? && where(change(v).value)
  }

  lemma ChunkLeavesTheRest<V(!new)>(t: map<Id, V>, where: V -> bool, change: V -> Option<V>, ids: set<Id>)
    requires ids <= Matches(t, where)
    ensures Progresses(where, change) ==> Matches(Apply(t, ids, change), where) == Matches(t, where) - ids
    ensures Stuck(where, change) ==> Matches(Apply(t, ids, change), where) == Matches(t, where)
  {
  }

  /** The loop of processIdsInChunks: `turns` are the chunks it took, the last select found nothing. */
  ghost predicate Loop<V(!new)>(t: map<Id, V>, where: V -> bool, change: V -> Option<V>, n: nat,
                                turns: seq<set<Id>>, after: map<Id, V>, total: int)
    decreases |turns|
  {
    if |turns| == 0 then Matches(t, where) == {} && after == t && total == 0
    else
      && turns[0] != {}
      && IsChunk(turns[0], Matches(t, where), n)
      && Loop(Apply(t, turns[0], change), where, change, n, turns[1..], after, total - |turns[0]|)
  }

  /** Midway through the loop: the rows done so far are processed, and the rest still match. */
  ghost predicate Midway<V(!new)>(t: map<Id, V>, where: V -> bool, change: V -> Option<V>, done: set<Id>,
      now: map<Id, V>)
  {
    && done <= Matches(t, where)
    && now == Apply(t, done, change)
    && Matches(now, where) == Matches(t, where) - done
  }

  lemma NothingDone<V(!new)>(t: map<Id, V>, where: V -> bool, change: V -> Option<V>)
    ensures Midway(t, where, change, {}, t)
  {
    assert Apply(t, {}, change) == t;
  }

  lemma ApplyTwice<V>(t: map<Id, V>, change: V -> Option<V>, done: set<Id>, ids: set<Id>)
    requires done !! ids
    ensures Apply(Apply(t, done, change), ids, change) == Apply(t, done + ids, change)
  {
  }

  lemma ChunkByChunk<V(!new)>(t: map<Id, V>, where: V -> bool, change: V -> Option<V>, done: set<Id>, now: map<Id, V>,
      ids: set<Id>)
    requires Midway(t, where, change, done, now) && ids <= Matches(now, where)
    requires Matches(Apply(now, ids, change), where) == Matches(now, where) - ids
    ensures Midway(t, where, change, done + ids, Apply(now, ids, change))
    ensures |done + ids| == |done| + |ids|
    ensures |Matches(Apply(now, ids, change), where)| == |Matches(now, where)| - |ids|
  {
    var rest := Matches(now, where);
    assert done !! rest;
    SubsetSize(ids, rest);
    SubsetSize(done, done + ids);
    assert (done + ids) - done == ids;
    ApplyTwice(t, change, done, ids);
  }

  /** processIdsInChunks on a query that progresses; a dry run only counts. */
  method ProcessIdsInChunks<V(!new)>(t: map<Id, V>, where: V -> bool, change: V -> Option<V>, n: nat, dryRun: bool)
    returns (after: map<Id, V>, total: nat)
    requires n > 0 && Progresses(where, change)
    ensures total == |Matches(t, where)|
    ensures after == if dryRun then t else Apply(t, Matches(t, where), change)
  {
    after, total := t, 0;
    if dryRun {
      total := |Matches(t, where)|;
      return;
    }
    ghost var done: set<Id> := {};
    NothingDone(t, where, change);
    while true
      invariant Midway(t, where, change, done, after) && total == |done|
      decreases |Matches(after, where)|
    {
      var ids := SelectIds(Matches(after, where), n);
      if |ids| == 0 {
        break;
      }
      ChunkLeavesTheRest(after, where, change, ids);
      ChunkByChunk(t, where, change, done, after, ids);
      after, total, done := Apply(after, ids, change), total + |ids|, done + ids;
    }
    assert done == Matches(t, where);
  }

  /**
   Whatever chunks the database picks, a progressing loop processes each matching row exactly once and nothing else.
   */
  lemma {:induction false} LoopProcessesEachOnce<V(!new)>(t: map<Id, V>, where: V -> bool, change: V -> Option<V>,
      n: nat, turns: seq<set<Id>>, after: map<Id, V>, total: int)
    requires Progresses(where, change) && Loop(t, where, change, n, turns, after, total)
    ensures total == |Matches(t, where)| && after == Apply(t, Matches(t, where), change)
    decreases |turns|
  {
    if |turns| != 0 {
      var ids := turns[0];
      var m := Apply(t, ids, change);
      ChunkLeavesTheRest(t, where, change, ids);
      SubsetSize(ids, Matches(t, where));
      LoopProcessesEachOnce(m, where, change, n, turns[1..], after, total - |ids|);
      assert after == Apply(t, Matches(t, where), change);
    }
  }

  /** A loop whose rows keep matching ends exactly when there is nothing to do. */
  lemma {:induction false} StuckLoopEndsExactly<V(!new)>(t: map<Id, V>, where: V -> bool, change: V -> Option<V>,
      n: nat)
    requires n > 0 && Stuck(where, change)
    ensures (exists after, total :: Ends(t, where, change, n, after, total)) <==> Matches(t, where) == {}
  {
    if Matches(t, where) == {} {
      IdleEnds(t, where, change, n);
    }
    if exists after, total :: Ends(t, where, change, n, after, total) {
      var after, total :| Ends(t, where, change, n, after, total);
      StuckEnds(t, where, change, n, after, total);
    }
  }

  lemma {:induction false} StuckLoopNeverEmpties<V(!new)>(t: map<Id, V>, where: V -> bool, change: V -> Option<V>,
      n: nat, turns: seq<set<Id>>, after: map<Id, V>, total: int)
    requires Stuck(where, change) && Loop(t, where, change, n, turns, after, total)
    ensures Matches(t, where) == {} && turns == [] && after == t && total == 0
    decreases |turns|
  {
    if |turns| != 0 {
      ChunkLeavesTheRest(t, where, change, turns[0]);
      StuckLoopNeverEmpties(Apply(t, turns[0], change), where, change, n, turns[1..], after, total - |turns[0]|);
    }
  }

  // ----- the six queries -----

  predicate ActiveHold(h: Hold, now: int) {
    h.expiresAt.None? || h.expiresAt.value > now
  }

  /** The left join finds an active hold of this user; a null user joins nothing. */
  predicate Held(holds: seq<Hold>, uid: Option<UserId>, now: int) {
    exists i :: 0 <= i < |holds| && uid == Some(holds[i].userId) && ActiveHold(holds[i], now)
  }

  const DAY := 86_400_000

  /** Some hold of this user has no end or has not ended yet. */
  ghost predicate Protected(holds: seq<Hold>, uid: Option<UserId>, now: int) {
    exists h :: h in holds && uid == Some(h.userId) && (h.expiresAt == None || now < h.expiresAt.value)
  }

  lemma HeldIsProtected(holds: seq<Hold>, uid: Option<UserId>, now: int)
    ensures Held(holds, uid, now) <==> Protected(holds, uid, now)
  {
    if h :| h in holds && uid == Some(h.userId) && (h.expiresAt == None || now < h.expiresAt.value) {
      var i :| 0 <= i < |holds| && holds[i] == h;
      assert ActiveHold(holds[i], now);
    }
  }

  function SessionsToAnonymize(holds: seq<Hold>, now: int, before: int): Session -> bool {
    (s: Session) => s.refreshExpiresAt < before && (s.ipAddress.Some? || s.userAgent.Some?)
                    && !Held(holds, Some(s.userId), now)
  }

  function SessionsToDelete(holds: seq<Hold>, now: int, before: int): Session -> bool {
    (s: Session) => s.refreshExpiresAt < before && !Held(holds, Some(s.userId), now)
  }

  /** Both passes over events select by age and hold alone. */
  function OldEvents(holds: seq<Hold>, now: int, before: int): Event -> bool {
    (e: Event) => e.createdAt < before && !Held(holds, e.userId, now)
  }

  function OldLogs(holds: seq<Hold>, now: int, before: int): Log -> bool {
    (l: Log) => l.createdAt < before && !Held(holds, l.actorUserId, now)
  }

  function AnonymousSession(): Session -> Option<Session> {
    (s: Session) => Some(s.(ipAddress := None, userAgent := None))
  }

  function AnonymousEvent(): Event -> Option<Event> {
    (e: Event) => Some(e.(userId := None, payload := EMPTY_PAYLOAD))
  }

  function AnonymousLog(): Log -> Option<Log> {
    (l: Log) => Some(l.(actorUserId := None, resourceId := None, payload := EMPTY_PAYLOAD))
  }

  function Gone<V>(): V -> Option<V> {
    _ => None
  }

  lemma SessionPassProgresses(holds: seq<Hold>, now: int, before: int)
    ensures Progresses(SessionsToAnonymize(holds, now, before), AnonymousSession())
  {
  }

  /** The event and audit-log queries do not exclude rows already anonymised, so a processed row matches again. */
  lemma EventAndLogPassesAreStuck(holds: seq<Hold>, now: int, before: int)
    ensures Stuck(OldEvents(holds, now, before), AnonymousEvent())
    ensures Stuck(OldLogs(holds, now, before), AnonymousLog())
  {
  }

  function NotYetAnonymous(): Event -> bool {
    (e: Event) => e.userId.Some? || e.payload != EMPTY_PAYLOAD
  }

  function LogNotYetAnonymous(): Log -> bool {
    (l: Log) => l.actorUserId.Some? || l.resourceId.Some? || l.payload != EMPTY_PAYLOAD
  }

  /** Testing for rows already anonymised restores the measure: each such loop then handles each of its rows once. */
  lemma ExcludingAnonymousRowsProgresses(holds: seq<Hold>, now: int, before: int)
    ensures Progresses(Both(OldEvents(holds, now, before), NotYetAnonymous()), AnonymousEvent())
    ensures Progresses(Both(OldLogs(holds, now, before), LogNotYetAnonymous()), AnonymousLog())
  {
  }

  /** The test added picks exactly the rows that anonymising changes. */
  lemma AnonymousExactly(e: Event, l: Log)
    ensures NotYetAnonymous()(e) <==> e != Event(None, "{}", e.createdAt)
    ensures AnonymousEvent()(e) == Some(Event(None, "{}", e.createdAt))
    ensures LogNotYetAnonymous()(l) <==> l != Log(None, l.action, None, "{}", l.createdAt)
    ensures AnonymousLog()(l) == Some(Log(None, l.action, None, "{}", l.createdAt))
  {
  }

  // ----- the job -----

  datatype Tables = Tables(sessions: map<Id, Session>, events: map<Id, Event>, logs: map<Id, Log>, holds: seq<Hold>)

  datatype Config = Config(
    chunk: nat,
    sessionAnonymizeDays: int,
    sessionDeleteDays: int,
    eventAnonymizeDays: int,
    eventDeleteDays: int,
    logAnonymizeDays: int,
    logDeleteDays: int)

  /** What the environment schema demands. */
  predicate ValidConfig(c: Config) {
    && c.chunk > 0
    && 0 < c.sessionAnonymizeDays <= c.sessionDeleteDays
    && 0 < c.eventAnonymizeDays <= c.eventDeleteDays
    && 0 < c.logAnonymizeDays <= c.logDeleteDays
  }

  /** One day for every pass, one row a chunk: nothing smaller is allowed, and every pass may keep its rows longer. */
  lemma SmallestConfig(c: Config, more: nat)
    requires ValidConfig(c)
    ensures ValidConfig(Config(1, 1, 1, 1, 1, 1, 1))
    ensures ValidConfig(Config(c.chunk + more, c.sessionAnonymizeDays, c.sessionDeleteDays + more, c.eventAnonymizeDays,
                               c.eventDeleteDays + more, c.logAnonymizeDays, c.logDeleteDays + more))
    ensures c.chunk >= 1 && c.sessionDeleteDays >= c.sessionAnonymizeDays >= 1
    ensures c.eventDeleteDays >= c.eventAnonymizeDays >= 1 && c.logDeleteDays >= c.logAnonymizeDays >= 1
  {
  }

  function SubtractDays(base: int, days: int): int {
    base - days * 24 * 60 * 60 * 1000
  }

  datatype Counts = Counts(anonymized: int, deleted: int)

  datatype Summary = Summary(auditLogs: Counts, securityEvents: Counts, sessions: Counts)

  /** The summary of a dry run: six counts on the tables as they stand. */
  function DryRunSummary(t: Tables, c: Config, now: int): Summary {
    var sa := SessionsToAnonymize(t.holds, now, SubtractDays(now, c.sessionAnonymizeDays));
    var sd := SessionsToDelete(t.holds, now, SubtractDays(now, c.sessionDeleteDays));
    var ea := OldEvents(t.holds, now, SubtractDays(now, c.eventAnonymizeDays));
    var ed := OldEvents(t.holds, now, SubtractDays(now, c.eventDeleteDays));
    var la := OldLogs(t.holds, now, SubtractDays(now, c.logAnonymizeDays));
    var ld := OldLogs(t.holds, now, SubtractDays(now, c.logDeleteDays));
    Summary(Counts(|Matches(t.logs, la)|, |Matches(t.logs, ld)|),
            Counts(|Matches(t.events, ea)|, |Matches(t.events, ed)|),
            Counts(|Matches(t.sessions, sa)|, |Matches(t.sessions, sd)|))
  }

  /** Which rows a pass over a table takes, cutoff and holds written out. */
  lemma OldRows(t: Tables, now: int, days: int)
    ensures Matches(t.events, OldEvents(t.holds, now, SubtractDays(now, days))) ==
            set id | id in t.events && t.events[id].createdAt < now - days * DAY
                     && !Protected(t.holds, t.events[id].userId, now)
    ensures Matches(t.logs, OldLogs(t.holds, now, SubtractDays(now, days))) ==
            set id | id in t.logs && t.logs[id].createdAt < now - days * DAY
                     && !Protected(t.holds, t.logs[id].actorUserId, now)
  {
    hide Protected, Held;
    forall id | id in t.events
      ensures Held(t.holds, t.events[id].userId, now) <==> Protected(t.holds, t.events[id].userId, now)
    {
      HeldIsProtected(t.holds, t.events[id].userId, now);
    }
    forall id | id in t.logs
      ensures Held(t.holds, t.logs[id].actorUserId, now) <==> Protected(t.holds, t.logs[id].actorUserId, now)
    {
      HeldIsProtected(t.holds, t.logs[id].actorUserId, now);
    }
  }

  lemma OldSessions(sessions: map<Id, Session>, holds: seq<Hold>, now: int, days: int)
    ensures Matches(sessions, SessionsToDelete(holds, now, SubtractDays(now, days))) ==
            set id | id in sessions && sessions[id].refreshExpiresAt < now - days * DAY
                     && !Protected(holds, Some(sessions[id].userId), now)
    ensures Matches(sessions, SessionsToAnonymize(holds, now, SubtractDays(now, days))) ==
            set id | id in sessions && sessions[id].refreshExpiresAt < now - days * DAY
                     && !Protected(holds, Some(sessions[id].userId), now)
                     && !(sessions[id].ipAddress == None && sessions[id].userAgent == None)
  {
    hide Protected, Held;
    forall id | id in sessions
      ensures Held(holds, Some(sessions[id].userId), now) <==> Protected(holds, Some(sessions[id].userId), now)
    {
      HeldIsProtected(holds, Some(sessions[id].userId), now);
    }
  }

  /** The six counts of a dry run: the unprotected rows past each cutoff. */
  lemma DryRunCounts(t: Tables, c: Config, now: int)
    ensures DryRunSummary(t, c, now).sessions.anonymized ==
            |set id | id in t.sessions && t.sessions[id].refreshExpiresAt < now - c.sessionAnonymizeDays * DAY
                      && !Protected(t.holds, Some(t.sessions[id].userId), now)
                      && !(t.sessions[id].ipAddress == None && t.sessions[id].userAgent == None)|
    ensures DryRunSummary(t, c, now).sessions.deleted ==
            |set id | id in t.sessions && t.sessions[id].refreshExpiresAt < now - c.sessionDeleteDays * DAY
                      && !Protected(t.holds, Some(t.sessions[id].userId), now)|
    ensures DryRunSummary(t, c, now).securityEvents.anonymized ==
            |set id | id in t.events && t.events[id].createdAt < now - c.eventAnonymizeDays * DAY
                      && !Protected(t.holds, t.events[id].userId, now)|
    ensures DryRunSummary(t, c, now).securityEvents.deleted ==
            |set id | id in t.events && t.events[id].createdAt < now - c.eventDeleteDays * DAY
                      && !Protected(t.holds, t.events[id].userId, now)|
    ensures DryRunSummary(t, c, now).auditLogs.anonymized ==
            |set id | id in t.logs && t.logs[id].createdAt < now - c.logAnonymizeDays * DAY
                      && !Protected(t.holds, t.logs[id].actorUserId, now)|
    ensures DryRunSummary(t, c, now).auditLogs.deleted ==
            |set id | id in t.logs && t.logs[id].createdAt < now - c.logDeleteDays * DAY
                      && !Protected(t.holds, t.logs[id].actorUserId, now)|
  {
    OldSessions(t.sessions, t.holds, now, c.sessionAnonymizeDays);
    OldSessions(t.sessions, t.holds, now, c.sessionDeleteDays);
    OldRows(t, now, c.eventAnonymizeDays);
    OldRows(t, now, c.eventDeleteDays);
    OldRows(t, now, c.logAnonymizeDays);
    OldRows(t, now, c.logDeleteDays);
    hide Protected, OldEvents, OldLogs, SessionsToAnonymize, SessionsToDelete, Matches, SubtractDays;
  }

  /** A loop over one table that comes to an end. */
  ghost predicate Ends<V(!new)>(t: map<Id, V>, where: V -> bool, change: V -> Option<V>, n: nat,
                                after: map<Id, V>, total: int) {
    exists turns :: Loop(t, where, change, n, turns, after, total)
  }

  /**
   The six loops of a real run in their order, through the anonymised tables s1, e1, l1, before the closing audit row.
   */
  ghost predicate RunThrough(t: Tables, c: Config, now: int, s1: map<Id, Session>, e1: map<Id, Event>, l1: map<Id, Log>,
                             after: Tables, r: Summary) {
    && Ends(t.sessions, SessionsToAnonymize(t.holds, now, SubtractDays(now, c.sessionAnonymizeDays)),
            AnonymousSession(), c.chunk, s1, r.sessions.anonymized)
    && Ends(t.events, OldEvents(t.holds, now, SubtractDays(now, c.eventAnonymizeDays)),
            AnonymousEvent(), c.chunk, e1, r.securityEvents.anonymized)
    && Ends(t.logs, OldLogs(t.holds, now, SubtractDays(now, c.logAnonymizeDays)),
            AnonymousLog(), c.chunk, l1, r.auditLogs.anonymized)
    && Ends(s1, SessionsToDelete(t.holds, now, SubtractDays(now, c.sessionDeleteDays)),
            Gone(), c.chunk, after.sessions, r.sessions.deleted)
    && Ends(e1, OldEvents(t.holds, now, SubtractDays(now, c.eventDeleteDays)),
            Gone(), c.chunk, after.events, r.securityEvents.deleted)
    && Ends(l1, OldLogs(t.holds, now, SubtractDays(now, c.logDeleteDays)),
            Gone(), c.chunk, after.logs, r.auditLogs.deleted)
    && after.holds == t.holds
  }

  lemma EndsOnce<V(!new)>(t: map<Id, V>, where: V -> bool, change: V -> Option<V>, n: nat, after: map<Id, V>,
      total: int)
    requires Progresses(where, change) && Ends(t, where, change, n, after, total)
    ensures total == |Matches(t, where)| && after == Apply(t, Matches(t, where), change)
  {
    var turns :| Loop(t, where, change, n, turns, after, total);
    LoopProcessesEachOnce(t, where, change, n, turns, after, total);
  }

  lemma StuckEnds<V(!new)>(t: map<Id, V>, where: V -> bool, change: V -> Option<V>, n: nat, after: map<Id, V>,
      total: int)
    requires Stuck(where, change) && Ends(t, where, change, n, after, total)
    ensures Matches(t, where) == {} && after == t && total == 0
  {
    var turns :| Loop(t, where, change, n, turns, after, total);
    StuckLoopNeverEmpties(t, where, change, n, turns, after, total);
  }

  /** The older the cutoff, the fewer rows. */
  lemma EarlierCutoff(t: Tables, c: Config, now: int)
    requires ValidConfig(c)
    ensures Matches(t.events, OldEvents(t.holds, now, SubtractDays(now, c.eventDeleteDays))) <=
            Matches(t.events, OldEvents(t.holds, now, SubtractDays(now, c.eventAnonymizeDays)))
    ensures Matches(t.logs, OldLogs(t.holds, now, SubtractDays(now, c.logDeleteDays))) <=
            Matches(t.logs, OldLogs(t.holds, now, SubtractDays(now, c.logAnonymizeDays)))
  {
  }

  /**
   A real run that comes to an end reports what a dry run would have and deletes no security event and no audit log. A
   session whose user has a hold without end, or one that has not ended, is left as it was; of the others it deletes
   those past the delete cutoff, clears IP and user agent of those past the anonymise cutoff, and leaves the rest alone.
   */
  lemma FinishedRun(t: Tables, c: Config, now: int, s1: map<Id, Session>, e1: map<Id, Event>, l1: map<Id, Log>,
                    after: Tables, r: Summary)
    requires ValidConfig(c) && RunThrough(t, c, now, s1, e1, l1, after, r)
    ensures r == DryRunSummary(t, c, now)
    ensures after.events == t.events && after.logs == t.logs
    ensures forall id, h :: id in t.sessions && h in t.holds && h.userId == t.sessions[id].userId &&
                            (h.expiresAt == None || now < h.expiresAt.value) ==>
              id in after.sessions && after.sessions[id] == t.sessions[id]
    ensures forall id :: id in t.sessions &&
                         (forall h :: h in t.holds && h.userId == t.sessions[id].userId ==>
                            h.expiresAt.Some? && h.expiresAt.value <= now) ==>
              var s := t.sessions[id];
              if s.refreshExpiresAt < now - c.sessionDeleteDays * DAY then id !in after.sessions
              else
                && id in after.sessions
                && after.sessions[id] == if s.refreshExpiresAt < now - c.sessionAnonymizeDays * DAY
                                         then s.(ipAddress := None, userAgent := None) else s
    ensures forall id :: id in t.sessions && id !in after.sessions ==>
              id in s1 && s1[id].ipAddress.None? && s1[id].userAgent.None?
    ensures forall id :: id in after.sessions ==> id in t.sessions
  {
    EventsUntouched(t, c, now, e1, after.events, r.securityEvents);
    LogsUntouched(t, c, now, l1, after.logs, r.auditLogs);
    SessionsHandled(t, c, now, s1, after.sessions, r.sessions);
    forall id, h | id in t.sessions && h in t.holds && h.userId == t.sessions[id].userId &&
                   (h.expiresAt == None || now < h.expiresAt.value)
      ensures Held(t.holds, Some(t.sessions[id].userId), now)
    {
      HeldIsProtected(t.holds, Some(t.sessions[id].userId), now);
    }
    forall id | id in t.sessions && forall h :: h in t.holds && h.userId == t.sessions[id].userId ==>
                                      h.expiresAt.Some? && h.expiresAt.value <= now
      ensures !Held(t.holds, Some(t.sessions[id].userId), now)
    {
      HeldIsProtected(t.holds, Some(t.sessions[id].userId), now);
    }
  }

  lemma EventsUntouched(t: Tables, c: Config, now: int, e1: map<Id, Event>, e2: map<Id, Event>, r: Counts)
    requires ValidConfig(c)
    requires Ends(t.events, OldEvents(t.holds, now, SubtractDays(now, c.eventAnonymizeDays)),
                  AnonymousEvent(), c.chunk, e1, r.anonymized)
    requires Ends(e1, OldEvents(t.holds, now, SubtractDays(now, c.eventDeleteDays)), Gone(), c.chunk, e2, r.deleted)
    ensures e2 == t.events && r == DryRunSummary(t, c, now).securityEvents
  {
    EventAndLogPassesAreStuck(t.holds, now, SubtractDays(now, c.eventAnonymizeDays));
    StuckEnds(t.events, OldEvents(t.holds, now, SubtractDays(now, c.eventAnonymizeDays)),
              AnonymousEvent(), c.chunk, e1, r.anonymized);
    EarlierCutoff(t, c, now);
    EndsOnce(e1, OldEvents(t.holds, now, SubtractDays(now, c.eventDeleteDays)), Gone(), c.chunk, e2, r.deleted);
  }

  lemma LogsUntouched(t: Tables, c: Config, now: int, l1: map<Id, Log>, l2: map<Id, Log>, r: Counts)
    requires ValidConfig(c)
    requires Ends(t.logs, OldLogs(t.holds, now, SubtractDays(now, c.logAnonymizeDays)),
                  AnonymousLog(), c.chunk, l1, r.anonymized)
    requires Ends(l1, OldLogs(t.holds, now, SubtractDays(now, c.logDeleteDays)), Gone(), c.chunk, l2, r.deleted)
    ensures l2 == t.logs && r == DryRunSummary(t, c, now).auditLogs
  {
    EventAndLogPassesAreStuck(t.holds, now, SubtractDays(now, c.logAnonymizeDays));
    StuckEnds(t.logs, OldLogs(t.holds, now, SubtractDays(now, c.logAnonymizeDays)),
              AnonymousLog(), c.chunk, l1, r.anonymized);
    EarlierCutoff(t, c, now);
    EndsOnce(l1, OldLogs(t.holds, now, SubtractDays(now, c.logDeleteDays)), Gone(), c.chunk, l2, r.deleted);
  }

  /** Anonymising changes neither what the delete query looks at nor a held row. */
  lemma AnonymizedSessions(holds: seq<Hold>, now: int, before: int, deleteBefore: int, s0: map<Id, Session>,
      s1: map<Id, Session>)
    requires s1 == Apply(s0, Matches(s0, SessionsToAnonymize(holds, now, before)), AnonymousSession())
    ensures Matches(s1, SessionsToDelete(holds, now, deleteBefore)) ==
            Matches(s0, SessionsToDelete(holds, now, deleteBefore))
    ensures s1.Keys == s0.Keys
    ensures forall id :: id in s0 ==> !SessionsToAnonymize(holds, now, before)(s1[id]) && s1[id].userId == s0[id].userId
    ensures forall id :: id in s0 && Held(holds, Some(s0[id].userId), now) ==> s1[id] == s0[id]
  {
    assert s1.Keys == s0.Keys;
    assert forall id :: id in s0 ==>
      s1[id].refreshExpiresAt == s0[id].refreshExpiresAt && s1[id].userId == s0[id].userId;
  }

  lemma SessionsHandled(t: Tables, c: Config, now: int, s1: map<Id, Session>, s2: map<Id, Session>, r: Counts)
    requires ValidConfig(c)
    requires Ends(t.sessions, SessionsToAnonymize(t.holds, now, SubtractDays(now, c.sessionAnonymizeDays)),
                  AnonymousSession(), c.chunk, s1, r.anonymized)
    requires Ends(s1, SessionsToDelete(t.holds, now, SubtractDays(now, c.sessionDeleteDays)), Gone(), c.chunk, s2,
             r.deleted)
    ensures r == DryRunSummary(t, c, now).sessions
    ensures forall id :: id in t.sessions && Held(t.holds, Some(t.sessions[id].userId), now) ==>
              id in s2 && s2[id] == t.sessions[id]
    ensures forall id :: id in t.sessions && id !in s2 ==> id in s1 && s1[id].ipAddress.None? && s1[id].userAgent.None?
    ensures forall id :: id in s2 ==> id in t.sessions
    ensures forall id :: id in t.sessions && !Held(t.holds, Some(t.sessions[id].userId), now) ==>
              var s := t.sessions[id];
              if s.refreshExpiresAt < SubtractDays(now, c.sessionDeleteDays) then id !in s2
              else
                && id in s2
                && s2[id] == if s.refreshExpiresAt < SubtractDays(now, c.sessionAnonymizeDays)
                             then s.(ipAddress := None, userAgent := None) else s
  {
    var before, deleteBefore := SubtractDays(now, c.sessionAnonymizeDays), SubtractDays(now, c.sessionDeleteDays);
    SessionPassProgresses(t.holds, now, before);
    EndsOnce(t.sessions, SessionsToAnonymize(t.holds, now, before), AnonymousSession(), c.chunk, s1, r.anonymized);
    AnonymizedSessions(t.holds, now, before, deleteBefore, t.sessions, s1);
    EndsOnce(s1, SessionsToDelete(t.holds, now, deleteBefore), Gone(), c.chunk, s2, r.deleted);
    DeletedSessions(t.holds, now, before, deleteBefore, s1, s2);
  }

  lemma DeletedSessions(holds: seq<Hold>, now: int, before: int, deleteBefore: int, s1: map<Id, Session>,
      s2: map<Id, Session>)
    requires deleteBefore <= before
    requires forall id :: id in s1 ==> !SessionsToAnonymize(holds, now, before)(s1[id])
    requires s2 == Apply(s1, Matches(s1, SessionsToDelete(holds, now, deleteBefore)), Gone())
    ensures forall id :: id in s1 && Held(holds, Some(s1[id].userId), now) ==> id in s2
    ensures forall id :: id in s1 && id !in s2 ==> s1[id].ipAddress.None? && s1[id].userAgent.None?
    ensures forall id :: id in s2 ==>
            id in s1 && s2[id] == s1[id] && !SessionsToDelete(holds, now, deleteBefore)(s2[id])
  {
    forall id | id in s1 && id !in s2 ensures s1[id].ipAddress.None? && s1[id].userAgent.None? {
      assert SessionsToDelete(holds, now, deleteBefore)(s1[id]) && !SessionsToAnonymize(holds, now, before)(s1[id]);
    }
  }

  lemma AllOldProtected(t: Tables, c: Config, now: int)
    ensures Matches(t.events, OldEvents(t.holds, now, SubtractDays(now, c.eventAnonymizeDays))) == {} <==>
            forall id :: id in t.events && t.events[id].createdAt < now - c.eventAnonymizeDays * DAY ==>
              Protected(t.holds, t.events[id].userId, now)
    ensures Matches(t.logs, OldLogs(t.holds, now, SubtractDays(now, c.logAnonymizeDays))) == {} <==>
            forall id :: id in t.logs && t.logs[id].createdAt < now - c.logAnonymizeDays * DAY ==>
              Protected(t.holds, t.logs[id].actorUserId, now)
  {
    OldRows(t, now, c.eventAnonymizeDays);
    OldRows(t, now, c.logAnonymizeDays);
    hide Protected, OldEvents, OldLogs;
    var events := Matches(t.events, OldEvents(t.holds, now, SubtractDays(now, c.eventAnonymizeDays)));
    var logs := Matches(t.logs, OldLogs(t.holds, now, SubtractDays(now, c.logAnonymizeDays)));
    assert events == {} <==> forall id :: id in t.events ==> id !in events;
    assert logs == {} <==> forall id :: id in t.logs ==> id !in logs;
    assert forall id :: id in t.events ==>
      (id in events <==> t.events[id].createdAt < now - c.eventAnonymizeDays * DAY
                         && !Protected(t.holds, t.events[id].userId, now));
    assert forall id :: id in t.logs ==>
      (id in logs <==> t.logs[id].createdAt < now - c.logAnonymizeDays * DAY
                       && !Protected(t.holds, t.logs[id].actorUserId, now));
  }

  /** A real run ends exactly when no unheld event or log is older than its anonymise cutoff. */
  lemma RealRunEndsExactly(t: Tables, c: Config, now: int)
    requires ValidConfig(c)
    ensures (exists s1, e1, l1, after, r :: RunThrough(t, c, now, s1, e1, l1, after, r)) <==>
            && (forall id :: id in t.events && t.events[id].createdAt < now - c.eventAnonymizeDays * DAY ==>
                  Protected(t.holds, t.events[id].userId, now))
            && (forall id :: id in t.logs && t.logs[id].createdAt < now - c.logAnonymizeDays * DAY ==>
                  Protected(t.holds, t.logs[id].actorUserId, now))
  {
    AllOldProtected(t, c, now);
    var ea := OldEvents(t.holds, now, SubtractDays(now, c.eventAnonymizeDays));
    var la := OldLogs(t.holds, now, SubtractDays(now, c.logAnonymizeDays));
    if exists s1, e1, l1, after, r :: RunThrough(t, c, now, s1, e1, l1, after, r) {
      var s1, e1, l1, after, r :| RunThrough(t, c, now, s1, e1, l1, after, r);
      EventAndLogPassesAreStuck(t.holds, now, SubtractDays(now, c.eventAnonymizeDays));
      EventAndLogPassesAreStuck(t.holds, now, SubtractDays(now, c.logAnonymizeDays));
      StuckEnds(t.events, ea, AnonymousEvent(), c.chunk, e1, r.securityEvents.anonymized);
      StuckEnds(t.logs, la, AnonymousLog(), c.chunk, l1, r.auditLogs.anonymized);
    }
    if Matches(t.events, ea) == {} && Matches(t.logs, la) == {} {
      SomeRun(t, c, now);
    }
  }

  lemma IdleEnds<V(!new)>(t: map<Id, V>, where: V -> bool, change: V -> Option<V>, n: nat)
    requires Matches(t, where) == {}
    ensures Ends(t, where, change, n, t, 0)
  {
    assert Loop(t, where, change, n, [], t, 0);
  }

  lemma SomeRun(t: Tables, c: Config, now: int)
    requires ValidConfig(c)
    requires Matches(t.events, OldEvents(t.holds, now, SubtractDays(now, c.eventAnonymizeDays))) == {}
    requires Matches(t.logs, OldLogs(t.holds, now, SubtractDays(now, c.logAnonymizeDays))) == {}
    ensures exists s1, e1, l1, after, r :: RunThrough(t, c, now, s1, e1, l1, after, r)
  {
    EarlierCutoff(t, c, now);
    SessionPassProgresses(t.holds, now, SubtractDays(now, c.sessionAnonymizeDays));
    var s1, a := SomeLoop(t.sessions, SessionsToAnonymize(t.holds, now, SubtractDays(now, c.sessionAnonymizeDays)),
                          AnonymousSession(), c.chunk);
    var s2, d := SomeLoop(s1, SessionsToDelete(t.holds, now, SubtractDays(now, c.sessionDeleteDays)), Gone(), c.chunk);
    IdleEnds(t.events, OldEvents(t.holds, now, SubtractDays(now, c.eventAnonymizeDays)), AnonymousEvent(), c.chunk);
    IdleEnds(t.logs, OldLogs(t.holds, now, SubtractDays(now, c.logAnonymizeDays)), AnonymousLog(), c.chunk);
    IdleEnds(t.events, OldEvents(t.holds, now, SubtractDays(now, c.eventDeleteDays)), Gone(), c.chunk);
    IdleEnds(t.logs, OldLogs(t.holds, now, SubtractDays(now, c.logDeleteDays)), Gone(), c.chunk);
    var r := Summary(Counts(0, 0), Counts(0, 0), Counts(a, d));
    assert RunThrough(t, c, now, s1, t.events, t.logs, Tables(s2, t.events, t.logs, t.holds), r);
  }

  /** With the test for rows already anonymised, both loops end and handle each of their rows exactly once. */
  lemma RepairedPassesEnd(t: Tables, c: Config, now: int)
    requires ValidConfig(c)
    ensures var where := Both(OldEvents(t.holds, now, SubtractDays(now, c.eventAnonymizeDays)), NotYetAnonymous());
            && (exists after, total :: Ends(t.events, where, AnonymousEvent(), c.chunk, after, total))
            && forall after, total :: Ends(t.events, where, AnonymousEvent(), c.chunk, after, total) ==>
                 total == |Matches(t.events, where)| &&
                   after == Apply(t.events, Matches(t.events, where), AnonymousEvent())
    ensures var where := Both(OldLogs(t.holds, now, SubtractDays(now, c.logAnonymizeDays)), LogNotYetAnonymous());
            && (exists after, total :: Ends(t.logs, where, AnonymousLog(), c.chunk, after, total))
            && forall after, total :: Ends(t.logs, where, AnonymousLog(), c.chunk, after, total) ==>
                 total == |Matches(t.logs, where)| && after == Apply(t.logs, Matches(t.logs, where), AnonymousLog())
  {
    ExcludingAnonymousRowsProgresses(t.holds, now, SubtractDays(now, c.eventAnonymizeDays));
    ExcludingAnonymousRowsProgresses(t.holds, now, SubtractDays(now, c.logAnonymizeDays));
    ProgressingLoop(t.events, Both(OldEvents(t.holds, now, SubtractDays(now, c.eventAnonymizeDays)), NotYetAnonymous()),
                    AnonymousEvent(), c.chunk);
    ProgressingLoop(t.logs, Both(OldLogs(t.holds, now, SubtractDays(now, c.logAnonymizeDays)), LogNotYetAnonymous()),
                    AnonymousLog(), c.chunk);
  }

  /** A progressing loop can end, and however it ends it handles each matching row once. */
  lemma ProgressingLoop<V(!new)>(t: map<Id, V>, where: V -> bool, change: V -> Option<V>, n: nat)
    requires n > 0 && Progresses(where, change)
    ensures exists after, total :: Ends(t, where, change, n, after, total)
    ensures forall after, total :: Ends(t, where, change, n, after, total) ==>
              total == |Matches(t, where)| && after == Apply(t, Matches(t, where), change)
  {
    var after, total := SomeLoop(t, where, change, n);
    forall after, total | Ends(t, where, change, n, after, total)
      ensures total == |Matches(t, where)| && after == Apply(t, Matches(t, where), change)
    {
      EndsOnce(t, where, change, n, after, total);
    }
  }

  lemma {:induction false} SomeLoop<V(!new)>(t: map<Id, V>, where: V -> bool, change: V -> Option<V>, n: nat)
    returns (after: map<Id, V>, total: nat)
    requires n > 0 && Progresses(where, change)
    ensures Ends(t, where, change, n, after, total)
    decreases |Matches(t, where)|
  {
    var matching := Matches(t, where);
    if matching == {} {
      after, total := t, 0;
      assert Loop(t, where, change, n, [], after, total);
    } else {
      var ids := SomeChunk(matching, n);
      ChunkLeavesTheRest(t, where, change, ids);
      SubsetSize(ids, matching);
      var rest: nat;
      after, rest := SomeLoop(Apply(t, ids, change), where, change, n);
      var turns :| Loop(Apply(t, ids, change), where, change, n, turns, after, rest);
      total := rest + |ids|;
      assert ([ids] + turns)[1..] == turns;
      assert Loop(t, where, change, n, [ids] + turns, after, total);
    }
  }

  lemma {:induction false} SomeChunk(matching: set<Id>, n: nat) returns (ids: set<Id>)
    ensures IsChunk(ids, matching, n)
    decreases n
  {
    if n == 0 || matching == {} {
      ids := {};
    } else {
      var id :| id in matching;
      ids := SomeChunk(matching - {id}, n - 1);
      ids := ids + {id};
    }
  }

  // ----- the tables in place -----

  class RetentionJob {
    const config: Config
    var sessions: map<Id, Session>
    var events: map<Id, Event>
    var logs: map<Id, Log>
    var holds: seq<Hold>

    constructor (config: Config, t: Tables)
      ensures this.config == config && Contents() == t
    {
      this.config := config;
      sessions, events, logs, holds := t.sessions, t.events, t.logs, t.holds;
    }

    ghost function Contents(): Tables
      reads this
    {
      Tables(sessions, events, logs, holds)
    }

    method AnonymizeSessions(now: int) returns (total: nat)
      requires ValidConfig(config)
      modifies this`sessions
      ensures var where := SessionsToAnonymize(holds, now, SubtractDays(now, config.sessionAnonymizeDays));
              && total == |Matches(old(sessions), where)|
              && sessions == Apply(old(sessions), Matches(old(sessions), where), AnonymousSession())
              && Matches(sessions, where) == {}
      ensures sessions.Keys == old(sessions).Keys
      ensures forall id :: id in sessions ==>
                var s := old(sessions)[id];
                sessions[id] == if s.refreshExpiresAt < now - config.sessionAnonymizeDays * DAY
                                   && !Protected(holds, Some(s.userId), now)
                                then s.(ipAddress := None, userAgent := None) else s
    {
      OldSessions(sessions, holds, now, config.sessionAnonymizeDays);
      var before := SubtractDays(now, config.sessionAnonymizeDays);
      SessionPassProgresses(holds, now, before);
      var after;
      after, total := ProcessIdsInChunks(sessions, SessionsToAnonymize(holds, now, before), AnonymousSession(),
                                         config.chunk, false);
      sessions := after;
    }

    method DeleteSessions(now: int) returns (total: nat)
      requires ValidConfig(config)
      modifies this`sessions
      ensures var where := SessionsToDelete(holds, now, SubtractDays(now, config.sessionDeleteDays));
              total == |Matches(old(sessions), where)| && sessions == old(sessions) - Matches(old(sessions), where)
      ensures sessions == map id | id in old(sessions) &&
                                   (old(sessions)[id].refreshExpiresAt >= now - config.sessionDeleteDays * DAY
                                    || Protected(holds, Some(old(sessions)[id].userId), now)) :: old(sessions)[id]
    {
      OldSessions(sessions, holds, now, config.sessionDeleteDays);
      var where := SessionsToDelete(holds, now, SubtractDays(now, config.sessionDeleteDays));
      var after;
      after, total := ProcessIdsInChunks(sessions, where, Gone(), config.chunk, false);
      sessions := after;
    }

    method DeleteEvents(now: int) returns (total: nat)
      requires ValidConfig(config)
      modifies this`events
      ensures var where := OldEvents(holds, now, SubtractDays(now, config.eventDeleteDays));
              total == |Matches(old(events), where)| && events == old(events) - Matches(old(events), where)
      ensures events == map id | id in old(events) &&
                                 (old(events)[id].createdAt >= now - config.eventDeleteDays * DAY
                                  || Protected(holds, old(events)[id].userId, now)) :: old(events)[id]
    {
      OldRows(Contents(), now, config.eventDeleteDays);
      var where := OldEvents(holds, now, SubtractDays(now, config.eventDeleteDays));
      var after;
      after, total := ProcessIdsInChunks(events, where, Gone(), config.chunk, false);
      events := after;
    }

    method DeleteLogs(now: int) returns (total: nat)
      requires ValidConfig(config)
      modifies this`logs
      ensures var where := OldLogs(holds, now, SubtractDays(now, config.logDeleteDays));
              total == |Matches(old(logs), where)| && logs == old(logs) - Matches(old(logs), where)
      ensures logs == map id | id in old(logs) &&
                               (old(logs)[id].createdAt >= now - config.logDeleteDays * DAY
                                || Protected(holds, old(logs)[id].actorUserId, now)) :: old(logs)[id]
    {
      OldRows(Contents(), now, config.logDeleteDays);
      var where := OldLogs(holds, now, SubtractDays(now, config.logDeleteDays));
      var after;
      after, total := ProcessIdsInChunks(logs, where, Gone(), config.chunk, false);
      logs := after;
    }

    /** One turn of the event pass: it always finds the same rows again. */
    method AnonymizeEventChunk(now: int) returns (count: nat)
      requires ValidConfig(config)
      modifies this`events
      ensures var where := OldEvents(holds, now, SubtractDays(now, config.eventAnonymizeDays));
              && (count == 0 <==> Matches(old(events), where) == {})
              && Matches(events, where) == Matches(old(events), where)
              && exists ids :: IsChunk(ids, Matches(old(events), where), config.chunk)
                               && events == Apply(old(events), ids, AnonymousEvent())
    {
      var before := SubtractDays(now, config.eventAnonymizeDays);
      var where := OldEvents(holds, now, before);
      var ids := SelectIds(Matches(events, where), config.chunk);
      EventAndLogPassesAreStuck(holds, now, before);
      ChunkLeavesTheRest(events, where, AnonymousEvent(), ids);
      events := Apply(events, ids, AnonymousEvent());
      count := |ids|;
    }

    /** The dry run: six counts, nothing written. */
    method DryRun(now: int) returns (summary: Summary)
      requires ValidConfig(config)
      ensures summary == DryRunSummary(Contents(), config, now)
    {
      var sa := |Matches(sessions, SessionsToAnonymize(holds, now, SubtractDays(now, config.sessionAnonymizeDays)))|;
      var ea := |Matches(events, OldEvents(holds, now, SubtractDays(now, config.eventAnonymizeDays)))|;
      var la := |Matches(logs, OldLogs(holds, now, SubtractDays(now, config.logAnonymizeDays)))|;
      var sd := |Matches(sessions, SessionsToDelete(holds, now, SubtractDays(now, config.sessionDeleteDays)))|;
      var ed := |Matches(events, OldEvents(holds, now, SubtractDays(now, config.eventDeleteDays)))|;
      var ld := |Matches(logs, OldLogs(holds, now, SubtractDays(now, config.logDeleteDays)))|;
      summary := Summary(Counts(la, ld), Counts(ea, ed), Counts(sa, sd));
    }
  }
}

/** The audit_logs table changed in place: the append under the chain lock, and the range verifier. */
module AuditTable {
  import opened Prelude
  import opened AuditChain

  /** The audit_logs table with its append and its verifier. */
  class AuditRepository {
    const env: Env
    var auditLogs: seq<Row>

    constructor (env: Env)
      ensures this.env == env && auditLogs == []
    {
      this.env := env;
      auditLogs := [];
    }

    /** One transaction under the chain lock: the clock is read after the lock is taken. */
    method CreateAuditLog(input: NewEntry, id: string, now: int)
      modifies this`auditLogs
      ensures auditLogs == old(auditLogs) + [NewRow(env, old(auditLogs), input, id, now)]
      ensures var row := auditLogs[|old(auditLogs)|];
              && row.id == id && row.createdAt == now && row.actorUserId == input.actorUserId
              && row.action == input.action && row.resourceType == input.resourceType
              && row.resourceId == input.resourceId && row.payload == env.jsonb(input.payload)
              && if "admin." <= input.action
                 then && row.integrityVersion == 1 && LatestChained(old(auditLogs), row.prevHash)
                      && row.entryHash == Some(EntryHash(env, row.(payload := input.payload)))
                 else row.integrityVersion == 0 && row.prevHash == None && row.entryHash == None
    {
      LatestHashIsLatest(auditLogs);
      var stored := env.jsonb(input.payload);
      if !ShouldUseHashChain(input.action) {
        auditLogs := auditLogs + [Row(id, input.actorUserId, input.action, input.resourceType, input.resourceId,
                                      stored, None, None, INTEGRITY_VERSION_NONE, now)];
        return;
      }
      var prevHash := LatestHash(Filter(Chained(), auditLogs));
      var row := Row(id, input.actorUserId, input.action, input.resourceType, input.resourceId, input.payload,
                     prevHash, None, INTEGRITY_VERSION_CHAINED, now);
      auditLogs := auditLogs + [row.(payload := stored, entryHash := Some(EntryHash(env, row)))];
    }

    /** The report names the first row whose link or whose own hash does not check. */
    method VerifyIntegrityRange(from: Option<int>, to: Option<int>) returns (report: Report)
      ensures report.ok <==> Verifies(env, auditLogs, from, to)
      ensures report.checked == |Range(auditLogs, from, to)|
      ensures Selects(Range(auditLogs, from, to), auditLogs, from, to)
      ensures var rows := Range(auditLogs, from, to);
              if |rows| == 0 then report == Report(true, 0, None, None, None, None)
              else report.firstId == Some(rows[0].id) && report.lastId == Some(rows[|rows| - 1].id)
      ensures report.ok ==> report.brokenAt.None? && report.reason.None?
      ensures !report.ok ==>
                var rows := Range(auditLogs, from, to);
                |rows| > 0 && exists i :: FirstBreak(env, PreviousHash(auditLogs, rows[0]), rows, i, report)
    {
      hide EntryHash, Range, PreviousHash, Selects;
      RangeSelects(auditLogs, from, to);
      var rows := Range(auditLogs, from, to);
      if |rows| == 0 {
        return Report(true, 0, None, None, None, None);
      }
      var first, last := rows[0], rows[|rows| - 1];
      var expectedPrevHash := PreviousHash(auditLogs, first);
      for i := 0 to |rows|
        invariant expectedPrevHash == if i == 0 then PreviousHash(auditLogs, rows[0]) else rows[i - 1].entryHash
        invariant forall j :: 0 <= j < i ==> RowLinked(env, PreviousHash(auditLogs, rows[0]), rows, j)
      {
        var row := rows[i];
        if row.prevHash != expectedPrevHash {
          assert !RowLinked(env, PreviousHash(auditLogs, rows[0]), rows, i);
          report := Report(false, |rows|, Some(first.id), Some(last.id), Some(row.id), Some("prev_hash_mismatch"));
          assert FirstBreak(env, PreviousHash(auditLogs, rows[0]), rows, i, report);
          return;
        }
        if row.entryHash != Some(EntryHash(env, row)) {
          assert !RowLinked(env, PreviousHash(auditLogs, rows[0]), rows, i);
          report := Report(false, |rows|, Some(first.id), Some(last.id), Some(row.id), Some("entry_hash_mismatch"));
          assert FirstBreak(env, PreviousHash(auditLogs, rows[0]), rows, i, report);
          return;
        }
        expectedPrevHash := row.entryHash;
      }
      return Report(true, |rows|, Some(first.id), Some(last.id), None, None);
    }
  }
}

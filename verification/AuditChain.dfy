/**
 The tamper-evident audit chain: rows whose action starts with "admin." are linked by hashes of canonical JSON.
 The digest, the ISO time format, the collation and the JSON column are parameters.
 */
module AuditChain {
  import opened Prelude
  import opened Json
  import opened Canonical

  datatype Row = Row(
    id: string,
    actorUserId: Option<string>,
    action: string,
    resourceType: string,
    resourceId: Option<string>,
    payload: Value,
    prevHash: Option<string>,
    entryHash: Option<string>,
    integrityVersion: int,
    createdAt: int)

  datatype NewEntry = NewEntry(
    actorUserId: Option<string>,
    action: string,
    resourceType: string,
    resourceId: Option<string>,
    payload: Value)

  datatype Report = Report(
    ok: bool,
    checked: nat,
    firstId: Option<string>,
    lastId: Option<string>,
    brokenAt: Option<string>,
    reason: Option<string>)

  /** SHA-256 in hex, Date.toISOString, localeCompare, and what a JSON column gives back for a written payload. */
  datatype Env = Env(sha256: string -> string, iso: int -> string, le: Collation, jsonb: Value -> Value)

  const INTEGRITY_VERSION_NONE := 0
  const INTEGRITY_VERSION_CHAINED := 1

  predicate ShouldUseHashChain(action: string) {
    "admin." <= action
  }

  // ----- the hashed text -----

  function OrNull(o: Option<string>): Value {
    match o
    case None => Null
    case Some(s) => Str(s)
  }

  function EntryMembers(env: Env, r: Row): seq<Member> {
    [Member("id", Str(r.id)),
     Member("createdAt", Str(env.iso(r.createdAt))),
     Member("actorUserId", OrNull(r.actorUserId)),
     Member("action", Str(r.action)),
     Member("resourceType", Str(r.resourceType)),
     Member("resourceId", OrNull(r.resourceId)),
     Member("payload", r.payload),
     Member("prevHash", OrNull(r.prevHash))]
  }

  function EntryHash(env: Env, r: Row): string {
    env.sha256(Canonicalize(env.le, Obj(EntryMembers(env, r))))
  }

  const ENTRY_ORDER :=
    ["action", "actorUserId", "createdAt", "id", "payload", "prevHash", "resourceId", "resourceType"]

  /** The hashed text under a collation that takes the eight keys in alphabetical order. */
  function EntryTexts(env: Env, r: Row): seq<string> {
    [Quote("action") + ":" + Quote(r.action),
     Quote("actorUserId") + ":" + TextOrNull(r.actorUserId),
     Quote("createdAt") + ":" + Quote(env.iso(r.createdAt)),
     Quote("id") + ":" + Quote(r.id),
     Quote("payload") + ":" + Canonicalize(env.le, r.payload),
     Quote("prevHash") + ":" + TextOrNull(r.prevHash),
     Quote("resourceId") + ":" + TextOrNull(r.resourceId),
     Quote("resourceType") + ":" + Quote(r.resourceType)]
  }

  function TextOrNull(o: Option<string>): string {
    if o.Some? then Quote(o.value) else "null"
  }

  ghost predicate Alphabetical(le: Collation) {
    TotalPreorder(le) &&
    forall i, j :: 0 <= i < j < 8 ==> le(ENTRY_ORDER[i], ENTRY_ORDER[j]) && !le(ENTRY_ORDER[j], ENTRY_ORDER[i])
  }

  /** An entry hash is the digest of this text. */
  lemma EntryHashText(env: Env, r: Row)
    requires Alphabetical(env.le)
    ensures EntryHash(env, r) == env.sha256("{" + Join(EntryTexts(env, r), ",") + "}")
  {
    var ms := EntryMembers(env, r);
    assert |ms| == 8;
    hide EntryMembers, EntryTexts, Join, Sort, MemberTexts, Canonicalize, Alphabetical;
    var sorted := [ms[3], ms[2], ms[1], ms[0], ms[6], ms[7], ms[5], ms[4]];
    EntrySorted(env, r, ms, sorted);
    EntryMemberTexts(env, r, sorted);
    SortedText(env.le, ms, sorted);
  }

  lemma SortedText(le: Collation, ms: seq<Member>, sorted: seq<Member>)
    requires sorted == Sort(le, ms)
    ensures Canonicalize(le, Obj(ms)) == "{" + Join(MemberTexts(le, sorted), ",") + "}"
  {
    hide Join, Sort, MemberTexts;
    CanonicalMembersJoin(le, sorted, Obj(ms));
  }

  lemma EntrySorted(env: Env, r: Row, ms: seq<Member>, sorted: seq<Member>)
    requires Alphabetical(env.le) && ms == EntryMembers(env, r)
    requires sorted == [ms[3], ms[2], ms[1], ms[0], ms[6], ms[7], ms[5], ms[4]]
    ensures Sort(env.le, ms) == sorted
  {
    assert forall i :: 0 <= i < 8 ==> sorted[i].key == ENTRY_ORDER[i];
    assert forall m :: m in sorted <==> m in ms;
    EntryKeysDistinct(env, r);
    SortEarlier(env.le, ms, ms);
    assert Strict(Earlier(env.le, ms), sorted);
    hide Sort, EntryMembers, Earlier, Strict;
    StrictUnique(Earlier(env.le, ms), Sort(env.le, ms), sorted);
  }

  lemma EntryMemberTexts(env: Env, r: Row, sorted: seq<Member>)
    requires var ms := EntryMembers(env, r);
             sorted == [ms[3], ms[2], ms[1], ms[0], ms[6], ms[7], ms[5], ms[4]]
    ensures MemberTexts(env.le, sorted) == EntryTexts(env, r)
  {
    hide Quote, Canonicalize;
    NullOrText(env.le, r.actorUserId);
    NullOrText(env.le, r.prevHash);
    NullOrText(env.le, r.resourceId);
    EntryScalars(env, r);
    var texts := MemberTexts(env.le, sorted);
    assert |texts| == 8;
  }

  lemma NullOrText(le: Collation, o: Option<string>)
    ensures Canonicalize(le, OrNull(o)) == TextOrNull(o)
  {
  }

  lemma EntryScalars(env: Env, r: Row)
    ensures Canonicalize(env.le, Str(r.id)) == Quote(r.id)
    ensures Canonicalize(env.le, Str(env.iso(r.createdAt))) == Quote(env.iso(r.createdAt))
    ensures Canonicalize(env.le, Str(r.action)) == Quote(r.action)
    ensures Canonicalize(env.le, Str(r.resourceType)) == Quote(r.resourceType)
  {
  }

  // ----- queries -----

  predicate KeyLess(a: Row, b: Row) {
    a.createdAt < b.createdAt || (a.createdAt == b.createdAt && TextLess(a.id, b.id))
  }

  function InsertAsc(r: Row, rows: seq<Row>): seq<Row> {
    if |rows| == 0 then [r]
    else if KeyLess(rows[0], r) then [rows[0]] + InsertAsc(r, rows[1..])
    else [r] + rows
  }

  /** order by created_at asc, id asc */
  function OrderAsc(rows: seq<Row>): seq<Row> {
    if |rows| == 0 then [] else InsertAsc(rows[0], OrderAsc(rows[1..]))
  }

  function Chained(): Row -> bool {
    (r: Row) => r.integrityVersion == INTEGRITY_VERSION_CHAINED
  }

  predicate InRange(from: Option<int>, to: Option<int>, r: Row) {
    (from.Some? ==> from.value <= r.createdAt) && (to.Some? ==> r.createdAt <= to.value)
  }

  function Within(from: Option<int>, to: Option<int>): Row -> bool {
    (r: Row) => InRange(from, to, r)
  }

  function Before(first: Row): Row -> bool {
    (r: Row) => KeyLess(r, first)
  }

  function Range(table: seq<Row>, from: Option<int>, to: Option<int>): seq<Row> {
    OrderAsc(Filter(Both(Chained(), Within(from, to)), table))
  }

  /** order by created_at desc, id desc limit 1 */
  function LatestHash(rows: seq<Row>): Option<string> {
    var sorted := OrderAsc(rows);
    if |sorted| == 0 then None else sorted[|sorted| - 1].entryHash
  }

  function PreviousHash(table: seq<Row>, first: Row): Option<string> {
    LatestHash(Filter(Both(Chained(), Before(first)), table))
  }

  // ----- appending -----

  function NewRow(env: Env, table: seq<Row>, e: NewEntry, id: string, now: int): Row {
    if ShouldUseHashChain(e.action) then
      var prev := LatestHash(Filter(Chained(), table));
      var hashed := Row(id, e.actorUserId, e.action, e.resourceType, e.resourceId, e.payload, prev, None,
                        INTEGRITY_VERSION_CHAINED, now);
      hashed.(payload := env.jsonb(e.payload), entryHash := Some(EntryHash(env, hashed)))
    else
      Row(id, e.actorUserId, e.action, e.resourceType, e.resourceId, env.jsonb(e.payload), None, None,
          INTEGRITY_VERSION_NONE, now)
  }

  // ----- what the queries give -----

  /** A time range selects the chained rows stamped from `from` to `to`, both ends included. */
  lemma RangeRows(table: seq<Row>, from: Option<int>, to: Option<int>, r: Row)
    ensures r in Range(table, from, to) <==>
            && r in table && r.integrityVersion == 1
            && (from.None? || from.value <= r.createdAt) && (to.None? || r.createdAt <= to.value)
  {
    OrderAscKeeps(Filter(Both(Chained(), Within(from, to)), table));
  }

  /** These are the chained rows of the table stamped from `from` to `to`, both ends included. */
  ghost predicate Selects(rows: seq<Row>, table: seq<Row>, from: Option<int>, to: Option<int>) {
    forall r :: r in rows <==>
      && r in table && r.integrityVersion == 1
      && (from.None? || from.value <= r.createdAt) && (to.None? || r.createdAt <= to.value)
  }

  lemma RangeSelects(table: seq<Row>, from: Option<int>, to: Option<int>)
    ensures Selects(Range(table, from, to), table, from, to)
  {
    hide Range;
    forall r ensures r in Range(table, from, to) <==>
                     && r in table && r.integrityVersion == 1
                     && (from.None? || from.value <= r.createdAt) && (to.None? || r.createdAt <= to.value)
    {
      RangeRows(table, from, to, r);
    }
  }

  /** No row of the list comes after this one. */
  ghost predicate IsGreatest(rows: seq<Row>, r: Row) {
    r in rows && forall x :: x in rows ==>
      x.createdAt < r.createdAt || (x.createdAt == r.createdAt && !TextLess(r.id, x.id))
  }

  /** The latest hash is that of a row none comes after, and there is none exactly when there is no row. */
  lemma LatestIsGreatest(rows: seq<Row>)
    ensures |rows| == 0 ==> LatestHash(rows) == None
    ensures |rows| != 0 ==> exists r :: IsGreatest(rows, r) && LatestHash(rows) == r.entryHash
  {
    if |rows| != 0 {
      var sorted := OrderAsc(rows);
      OrderAscKeeps(rows);
      var last := sorted[|sorted| - 1];
      assert last in rows;
      forall x | x in rows ensures !KeyLess(last, x) {
        LastIsGreatest(rows, x);
      }
      assert IsGreatest(rows, last);
    }
  }

  lemma {:induction false} InsertAscLast(r: Row, rows: seq<Row>)
    ensures var s := InsertAsc(r, rows);
            |s| > 0 && (s[|s| - 1] == r || (|rows| > 0 && s[|s| - 1] == rows[|rows| - 1]))
    ensures var s := InsertAsc(r, rows);
            s[|s| - 1] == r && |rows| > 0 ==> KeyLess(rows[|rows| - 1], r) || s[|s| - 1] == rows[|rows| - 1]
    ensures var s := InsertAsc(r, rows);
            s[|s| - 1] != r ==> exists x :: x in rows && !KeyLess(x, r)
  {
    if |rows| != 0 {
      var t := rows[1..];
      assert rows == [rows[0]] + t;
      InsertAscLast(r, t);
      assert rows[0] in rows;
    }
  }

  lemma {:induction false} LastIsGreatest(rows: seq<Row>, x: Row)
    requires x in rows
    ensures |OrderAsc(rows)| > 0 && !KeyLess(OrderAsc(rows)[|OrderAsc(rows)| - 1], x)
  {
    OrderAscKeeps(rows);
    var head, others := rows[0], rows[1..];
    assert rows == [head] + others;
    var t := OrderAsc(others);
    var all := OrderAsc(rows);
    assert all == InsertAsc(head, t);
    OrderAscKeeps(others);
    InsertAscLast(head, t);
    KeyOrder(head, head, head);
    hide OrderAsc, InsertAsc, KeyLess;
    if x in others {
      LastIsGreatest(others, x);
    }
    var last := all[|all| - 1];
    if last != head {
      var y :| y in t && !KeyLess(y, head);
      LastIsGreatest(others, y);
      NotLess(last, y, head);
    } else if x != head && last != t[|t| - 1] {
      KeyOrder(t[|t| - 1], head, t[|t| - 1]);
      NotLess(head, t[|t| - 1], x);
    }
  }

  lemma NotLess(a: Row, b: Row, c: Row)
    requires !KeyLess(a, b) && !KeyLess(b, c)
    ensures !KeyLess(a, c)
  {
    KeyCompare(a, b);
    KeyCompare(b, c);
    KeyOrder(c, b, a);
    KeyOrder(a, c, a);
  }

  /** What an append links to: the hash of a chained row none comes after, if there is a chained row. */
  ghost predicate LatestChained(table: seq<Row>, hash: Option<string>) {
    if forall r :: r in table ==> r.integrityVersion != 1 then hash == None
    else
      exists r ::
        && r in table && r.integrityVersion == 1 && hash == r.entryHash
        && forall x :: x in table && x.integrityVersion == 1 ==>
             x.createdAt < r.createdAt || (x.createdAt == r.createdAt && !TextLess(r.id, x.id))
  }

  lemma LatestHashIsLatest(table: seq<Row>)
    ensures LatestChained(table, LatestHash(Filter(Chained(), table)))
  {
    var chain := Filter(Chained(), table);
    LatestIsGreatest(chain);
    HasElement(chain);
    if |chain| != 0 {
      var r :| IsGreatest(chain, r) && LatestHash(chain) == r.entryHash;
      assert forall x :: x in table && x.integrityVersion == 1 ==> x in chain;
    }
  }

  // ----- verifying -----

  predicate RowLinked(env: Env, prev: Option<string>, rows: seq<Row>, i: nat)
    requires i < |rows|
  {
    && rows[i].prevHash == (if i == 0 then prev else rows[i - 1].entryHash)
    && rows[i].entryHash == Some(EntryHash(env, rows[i]))
  }

  predicate Linked(env: Env, prev: Option<string>, rows: seq<Row>) {
    forall i :: 0 <= i < |rows| ==> RowLinked(env, prev, rows, i)
  }

  /** Row i is the first that does not check, and the report says which of its two hashes is wrong. */
  ghost predicate FirstBreak(env: Env, prev: Option<string>, rows: seq<Row>, i: int, report: Report) {
    && 0 <= i < |rows|
    && (forall j :: 0 <= j < i ==> RowLinked(env, prev, rows, j))
    && report.brokenAt == Some(rows[i].id)
    && var expected := if i == 0 then prev else rows[i - 1].entryHash;
       if rows[i].prevHash != expected then report.reason == Some("prev_hash_mismatch")
       else rows[i].entryHash != Some(EntryHash(env, rows[i])) && report.reason == Some("entry_hash_mismatch")
  }

  predicate Verifies(env: Env, table: seq<Row>, from: Option<int>, to: Option<int>) {
    var rows := Range(table, from, to);
    |rows| == 0 || Linked(env, PreviousHash(table, rows[0]), rows)
  }

  // ----- a hash binds every field of its row -----

  ghost predicate SameFields(a: Row, b: Row) {
    && a.id == b.id
    && a.createdAt == b.createdAt
    && a.actorUserId == b.actorUserId
    && a.action == b.action
    && a.resourceType == b.resourceType
    && a.resourceId == b.resourceId
    && Denote(a.payload) == Denote(b.payload)
    && a.prevHash == b.prevHash
  }

  lemma EntryKeysDistinct(env: Env, r: Row)
    ensures Distinct(Keys(EntryMembers(env, r)))
  {
    var ms := EntryMembers(env, r);
    DistinctKeys(ms);
    assert ms[0].key == "id" && ms[1].key == "createdAt" && ms[2].key == "actorUserId" && ms[3].key == "action";
    assert ms[4].key == "resourceType" && ms[5].key == "resourceId" && ms[6].key == "payload" &&
      ms[7].key == "prevHash";
    assert "createdAt"[0] == 'c' && "resourceType"[8] == 'T' && "resourceId"[8] == 'I';
    assert "actorUserId"[1] == 'c' && "actorUserId"[2] == 't' && "actorUserId"[3] == 'o' && "action"[3] == 'i';
    assert "payload"[1] == 'a' && "prevHash"[1] == 'r';
  }

  lemma EntryIsJson(env: Env, r: Row)
    ensures WellFormed(r.payload) ==> WellFormed(Obj(EntryMembers(env, r)))
    ensures IsJson(r.payload) ==> IsJson(Obj(EntryMembers(env, r)))
  {
    EntryKeysDistinct(env, r);
    MembersOf(EntryMembers(env, r));
  }

  lemma EntryHashBinds(env: Env, a: Row, b: Row)
    requires Injective(env.sha256) && Injective(env.iso)
    requires IsJson(a.payload) && IsJson(b.payload)
    requires EntryHash(env, a) == EntryHash(env, b)
    ensures SameFields(a, b)
  {
    EntryIsJson(env, a);
    EntryIsJson(env, b);
    var p, q := EntryMembers(env, a), EntryMembers(env, b);
    CanonicalInjective(env.le, Obj(p), Obj(q));
    assert Keys(p) == Keys(q);
    SameKeysSameValues(p, q);
    SameMembersSameFields(env, a, b);
  }

  lemma SameMembersSameFields(env: Env, a: Row, b: Row)
    requires Injective(env.iso)
    requires var p, q := EntryMembers(env, a), EntryMembers(env, b);
             forall i :: 0 <= i < 8 ==> Denote(p[i].value) == Denote(q[i].value)
    ensures SameFields(a, b)
  {
    var p, q := EntryMembers(env, a), EntryMembers(env, b);
    assert Denote(p[0].value) == Denote(q[0].value);
    assert Denote(p[1].value) == Denote(q[1].value);
    assert Denote(p[2].value) == Denote(q[2].value);
    assert Denote(p[3].value) == Denote(q[3].value);
    assert Denote(p[4].value) == Denote(q[4].value);
    assert Denote(p[5].value) == Denote(q[5].value);
    assert Denote(p[6].value) == Denote(q[6].value);
    assert Denote(p[7].value) == Denote(q[7].value);
  }

  ghost predicate JsonRows(rows: seq<Row>) {
    forall i :: 0 <= i < |rows| ==> IsJson(rows[i].payload)
  }

  /** Two chains that start from nothing and share one entry hash agree on everything up to it. */
  lemma {:induction false} SharedHashSharedPast(env: Env, a: seq<Row>, b: seq<Row>, i: nat, j: nat)
    requires Injective(env.sha256) && Injective(env.iso)
    requires JsonRows(a) && JsonRows(b)
    requires Linked(env, None, a) && Linked(env, None, b)
    requires i < |a| && j < |b| && a[i].entryHash == b[j].entryHash
    ensures i == j
    ensures forall k :: 0 <= k <= i ==> SameFields(a[k], b[k]) && a[k].entryHash == b[k].entryHash
    decreases i
  {
    hide EntryHash, IsJson, Injective;
    assert RowLinked(env, None, a, i) && RowLinked(env, None, b, j);
    EntryHashBinds(env, a[i], b[j]);
    if i > 0 {
      assert RowLinked(env, None, a, i - 1);
    }
    if j > 0 {
      assert RowLinked(env, None, b, j - 1);
    }
    if i > 0 && j > 0 {
      SharedHashSharedPast(env, a, b, i - 1, j - 1);
    }
  }

  // ----- ordering facts -----

  predicate Ascending(rows: seq<Row>) {
    forall i, j :: 0 <= i < j < |rows| ==> KeyLess(rows[i], rows[j])
  }

  lemma KeyOrder(a: Row, b: Row, c: Row)
    ensures !KeyLess(a, a)
    ensures KeyLess(a, b) && KeyLess(b, c) ==> KeyLess(a, c)
  {
    TextLessIrreflexive(a.id);
    if a.createdAt == b.createdAt == c.createdAt && KeyLess(a, b) && KeyLess(b, c) {
      TextLessTransitive(a.id, b.id, c.id);
    }
  }

  lemma {:induction false} OrderAscKeeps(rows: seq<Row>)
    ensures |OrderAsc(rows)| == |rows|
    ensures forall r :: r in OrderAsc(rows) <==> r in rows
  {
    if |rows| != 0 {
      assert rows == [rows[0]] + rows[1..];
      OrderAscKeeps(rows[1..]);
      InsertAscKeeps(rows[0], OrderAsc(rows[1..]));
    }
  }

  lemma {:induction false} InsertAscKeeps(r: Row, rows: seq<Row>)
    ensures |InsertAsc(r, rows)| == |rows| + 1
    ensures forall x :: x in InsertAsc(r, rows) <==> x == r || x in rows
  {
    if |rows| != 0 {
      assert rows == [rows[0]] + rows[1..];
      InsertAscKeeps(r, rows[1..]);
    }
  }

  lemma {:induction false} OrderAscOfAscending(rows: seq<Row>)
    requires Ascending(rows)
    ensures OrderAsc(rows) == rows
  {
    if |rows| != 0 {
      var t := rows[1..];
      assert forall i :: 0 <= i < |t| ==> t[i] == rows[i + 1];
      OrderAscOfAscending(t);
      assert rows == [rows[0]] + t;
      if |t| != 0 {
        assert KeyLess(rows[0], t[0]);
        KeyOrder(rows[0], t[0], rows[0]);
      }
    }
  }

  /** The first row of an ordered result has no smaller row beside it. */
  lemma {:induction false} FirstIsLeast(rows: seq<Row>, r: Row)
    requires r in rows
    ensures |OrderAsc(rows)| > 0 && !KeyLess(r, OrderAsc(rows)[0])
  {
    OrderAscKeeps(rows);
    assert rows == [rows[0]] + rows[1..];
    var head, t := rows[0], OrderAsc(rows[1..]);
    KeyOrder(r, r, r);
    if r in rows[1..] {
      FirstIsLeast(rows[1..], r);
      if !KeyLess(t[0], head) {
        KeyCompare(head, t[0]);
        KeyOrder(r, head, t[0]);
      }
    } else if |t| > 0 && KeyLess(t[0], head) {
      KeyOrder(head, t[0], head);
    }
  }

  lemma KeyCompare(a: Row, b: Row)
    ensures KeyLess(a, b) || KeyLess(b, a) || (a.createdAt == b.createdAt && a.id == b.id)
  {
    TextLessTotal(a.id, b.id);
  }

  /** With no bounds the verifier starts from an empty past. */
  lemma NothingBeforeFirst(table: seq<Row>)
    requires |Range(table, None, None)| > 0
    ensures PreviousHash(table, Range(table, None, None)[0]) == None
  {
    var all := Filter(Both(Chained(), Within(None, None)), table);
    var first := OrderAsc(all)[0];
    var before := Filter(Both(Chained(), Before(first)), table);
    forall r | r in before ensures KeyLess(r, first) && r in all {
      assert Both(Chained(), Before(first))(r) && Both(Chained(), Within(None, None))(r);
    }
    forall r | r in before ensures false {
      FirstIsLeast(all, r);
    }
    HasElement(before);
  }

  /**
   Chain binding: if the verifier accepts two whole tables and their last entry hashes agree,
   the tables hold the same chained rows, field for field.
   */
  lemma ChainBinding(env: Env, t1: seq<Row>, t2: seq<Row>)
    requires Injective(env.sha256) && Injective(env.iso)
    requires JsonRows(t1) && JsonRows(t2)
    requires Verifies(env, t1, None, None) && Verifies(env, t2, None, None)
    requires |Range(t1, None, None)| > 0 && |Range(t2, None, None)| > 0
    requires var a, b := Range(t1, None, None), Range(t2, None, None);
             a[|a| - 1].entryHash == b[|b| - 1].entryHash
    ensures var a, b := Range(t1, None, None), Range(t2, None, None);
            && |a| == |b|
            && forall i :: 0 <= i < |a| ==> SameFields(a[i], b[i]) && a[i].entryHash == b[i].entryHash
  {
    hide EntryHash, IsJson, Injective, Range, PreviousHash;
    var a, b := Range(t1, None, None), Range(t2, None, None);
    NothingBeforeFirst(t1);
    NothingBeforeFirst(t2);
    RangeIsJson(t1);
    RangeIsJson(t2);
    SharedHashSharedPast(env, a, b, |a| - 1, |b| - 1);
  }

  lemma RangeIsJson(table: seq<Row>)
    requires JsonRows(table)
    ensures JsonRows(Range(table, None, None))
  {
    var f := Filter(Both(Chained(), Within(None, None)), table);
    OrderAscKeeps(f);
    forall i | 0 <= i < |OrderAsc(f)| ensures IsJson(OrderAsc(f)[i].payload) {
      assert OrderAsc(f)[i] in table;
    }
  }
}

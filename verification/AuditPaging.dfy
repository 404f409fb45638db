/**
 Keyset paging over audit_logs and security_events.
 Stored times are microseconds; a cursor carries a JavaScript Date, which keeps milliseconds only.
 */
module AuditPaging {
  import opened Prelude
  import Json
  import AuditChain

  datatype SecurityEvent = SecurityEvent(
    id: string,
    userId: Option<string>,
    eventType: string,
    payload: Json.Value,
    createdAt: int)

  const MICROS := 1000

  type Fraction = m: int | 0 <= m < MICROS

  /**
   A row of either table. createAuditLog stamps its rows from a Date, so their fraction of a millisecond is 0; the row
   that closes a retention run, and every security event, is stamped by the database clock.
   */
  datatype Record = Log(log: AuditChain.Row, fraction: Fraction) | Event(event: SecurityEvent)

  function At(r: Record): int {
    match r
    case Log(row, fraction) => row.createdAt * MICROS + fraction
    case Event(e) => e.createdAt
  }

  predicate WholeMillisecond(r: Record) {
    At(r) % MICROS == 0
  }

  function Id(r: Record): string {
    match r
    case Log(row, _) => row.id
    case Event(e) => e.id
  }

  /** Date.getTime() of the time the driver reads for a row. */
  function Millis(r: Record): int {
    At(r) / MICROS
  }

  // ----- queries -----

  datatype AuditQuery = AuditQuery(
    from: Option<int>,
    to: Option<int>,
    actorUserId: Option<string>,
    action: Option<string>,
    resourceType: Option<string>,
    resourceId: Option<string>)

  datatype EventQuery = EventQuery(from: Option<int>, to: Option<int>, userId: Option<string>,
      eventType: Option<string>)

  /** A filter that is absent or empty text is not applied. */
  predicate Wanted(filter: Option<string>, actual: Option<string>) {
    filter.None? || filter.value == "" || filter == actual
  }

  predicate TimeWanted(from: Option<int>, to: Option<int>, r: Record) {
    (from.Some? ==> from.value * MICROS <= At(r)) && (to.Some? ==> At(r) <= to.value * MICROS)
  }

  function AuditWhere(q: AuditQuery): Record -> bool {
    (r: Record) =>
      && r.Log?
      && TimeWanted(q.from, q.to, r)
      && Wanted(q.actorUserId, r.log.actorUserId)
      && Wanted(q.action, Some(r.log.action))
      && Wanted(q.resourceType, Some(r.log.resourceType))
      && Wanted(q.resourceId, r.log.resourceId)
  }

  function EventWhere(q: EventQuery): Record -> bool {
    (r: Record) =>
      && r.Event?
      && TimeWanted(q.from, q.to, r)
      && Wanted(q.userId, r.event.userId)
      && Wanted(q.eventType, Some(r.event.eventType))
  }

  datatype Cursor = Cursor(millis: int, id: string)

  function ToCursor(r: Record): Cursor {
    Cursor(Millis(r), Id(r))
  }

  predicate Beyond(c: Cursor, r: Record) {
    At(r) < c.millis * MICROS || (At(r) == c.millis * MICROS && TextLess(Id(r), c.id))
  }

  function CursorWhere(c: Option<Cursor>): Record -> bool {
    (r: Record) => c.None? || Beyond(c.value, r)
  }

  /** a comes before b under order by created_at desc, id desc. */
  predicate Newer(a: Record, b: Record) {
    At(a) > At(b) || (At(a) == At(b) && TextLess(Id(b), Id(a)))
  }

  function InsertDesc(r: Record, rows: seq<Record>): seq<Record> {
    if |rows| == 0 then [r]
    else if Newer(rows[0], r) then [rows[0]] + InsertDesc(r, rows[1..])
    else [r] + rows
  }

  function OrderDesc(rows: seq<Record>): seq<Record> {
    if |rows| == 0 then [] else InsertDesc(rows[0], OrderDesc(rows[1..]))
  }

  const MAX_PAGE_SIZE: nat := 200

  datatype Number = NotFinite | Finite(x: real)

  function ToPageLimit(n: Number): (limit: nat)
    ensures 1 <= limit <= MAX_PAGE_SIZE
    ensures n.NotFinite? ==> limit == 50
    ensures n.Finite? && n.x < 1.0 ==> limit == 1
    ensures n.Finite? && 1.0 <= n.x < 200.0 ==> limit as real <= n.x < limit as real + 1.0
    ensures n.Finite? && 200.0 <= n.x ==> limit == 200
  {
    match n
    case NotFinite => 50
    case Finite(x) => if x.Floor < 1 then 1 else if x.Floor > MAX_PAGE_SIZE then MAX_PAGE_SIZE else x.Floor
  }

  datatype Page = Page(items: seq<Record>, nextCursor: Option<Cursor>)

  /** select ... where filter and cursor order by ... limit (limit + 1), then the cut. */
  function ListPage(table: seq<Record>, want: Record -> bool, limit: nat, cursor: Option<Cursor>): Page
    requires limit > 0
  {
    PageOf(OrderDesc(Filter(Both(want, CursorWhere(cursor)), table)), limit)
  }

  /** The page cut from the ordered rows that remain. */
  function PageOf(remaining: seq<Record>, limit: nat): Page
    requires limit > 0
  {
    var rows := if |remaining| > limit + 1 then remaining[..limit + 1] else remaining;
    if |rows| > limit then
      var items := rows[..limit];
      Page(items, Some(ToCursor(items[limit - 1])))
    else
      Page(rows, None)
  }

  // ----- the order -----

  predicate Descending(rows: seq<Record>) {
    forall i, j :: 0 <= i < j < |rows| ==> Newer(rows[i], rows[j])
  }

  predicate UniqueIds(rows: seq<Record>) {
    forall i, j :: 0 <= i < j < |rows| ==> Id(rows[i]) != Id(rows[j])
  }

  lemma NewerOrder(a: Record, b: Record, c: Record)
    ensures !Newer(a, a)
    ensures Newer(a, b) && Newer(b, c) ==> Newer(a, c)
    ensures Id(a) != Id(b) ==> Newer(a, b) || Newer(b, a)
  {
    TextLessIrreflexive(Id(a));
    TextLessTotal(Id(a), Id(b));
    if At(a) == At(b) == At(c) && Newer(a, b) && Newer(b, c) {
      TextLessTransitive(Id(c), Id(b), Id(a));
    }
  }

  lemma {:induction false} InsertDescKeeps(r: Record, rows: seq<Record>)
    ensures multiset(InsertDesc(r, rows)) == multiset(rows) + multiset{r}
    ensures forall x :: x in InsertDesc(r, rows) <==> x == r || x in rows
  {
    if |rows| != 0 {
      assert rows == [rows[0]] + rows[1..];
      InsertDescKeeps(r, rows[1..]);
    }
  }

  lemma {:induction false} InsertDescDescends(r: Record, rows: seq<Record>)
    requires Descending(rows)
    requires forall x :: x in rows ==> Id(x) != Id(r)
    ensures Descending(InsertDesc(r, rows))
  {
    if |rows| != 0 {
      var t := rows[1..];
      assert rows == [rows[0]] + t;
      NewerOrder(rows[0], r, r);
      assert rows[0] in rows;
      if Newer(rows[0], r) {
        InsertDescDescends(r, t);
        InsertDescKeeps(r, t);
        var u := InsertDesc(r, t);
        forall j | 0 <= j < |u| ensures Newer(rows[0], u[j]) {
          assert u[j] in u;
        }
      } else {
        forall j | 0 <= j < |rows| ensures Newer(r, rows[j]) {
          NewerOrder(r, rows[0], rows[j]);
        }
      }
    }
  }

  lemma {:induction false} OrderDescSorts(rows: seq<Record>)
    requires UniqueIds(rows)
    ensures Descending(OrderDesc(rows))
    ensures multiset(OrderDesc(rows)) == multiset(rows)
    ensures forall x :: x in OrderDesc(rows) <==> x in rows
  {
    if |rows| != 0 {
      var t := rows[1..];
      assert rows == [rows[0]] + t;
      assert forall i :: 0 <= i < |t| ==> t[i] == rows[i + 1];
      OrderDescSorts(t);
      InsertDescKeeps(rows[0], OrderDesc(t));
      InsertDescDescends(rows[0], OrderDesc(t));
    }
  }

  lemma {:induction false} InsertFilter(p: Record -> bool, r: Record, rows: seq<Record>)
    requires Descending(rows)
    ensures Filter(p, InsertDesc(r, rows)) == if p(r) then InsertDesc(r, Filter(p, rows)) else Filter(p, rows)
  {
    if |rows| == 0 {
      assert [r][1..] == [];
    } else {
      var t := rows[1..];
      if Newer(rows[0], r) {
        InsertFilter(p, r, t);
        assert ([rows[0]] + InsertDesc(r, t))[1..] == InsertDesc(r, t);
        assert p(rows[0]) ==> Filter(p, rows)[1..] == Filter(p, t);
      } else {
        assert ([r] + rows)[1..] == rows;
        var f := Filter(p, rows);
        if |f| > 0 {
          assert f[0] in f;
          var i :| 0 <= i < |rows| && rows[i] == f[0];
          NewerOrder(rows[0], f[0], r);
        }
      }
    }
  }

  lemma {:induction false} OrderFilter(p: Record -> bool, rows: seq<Record>)
    requires UniqueIds(rows)
    ensures OrderDesc(Filter(p, rows)) == Filter(p, OrderDesc(rows))
  {
    if |rows| != 0 {
      var t := rows[1..];
      assert forall i :: 0 <= i < |t| ==> t[i] == rows[i + 1];
      OrderFilter(p, t);
      OrderDescSorts(t);
      InsertFilter(p, rows[0], OrderDesc(t));
      assert ([rows[0]] + Filter(p, t))[1..] == Filter(p, t);
    }
  }

  lemma {:induction false} FilterUnique(p: Record -> bool, rows: seq<Record>)
    requires UniqueIds(rows)
    ensures UniqueIds(Filter(p, rows))
  {
    if |rows| != 0 {
      var t := rows[1..];
      assert forall i :: 0 <= i < |t| ==> t[i] == rows[i + 1];
      FilterUnique(p, t);
      var f := Filter(p, t);
      assert forall i :: 0 <= i < |f| ==> f[i] in t;
      assert forall x :: x in t ==> Id(x) != Id(rows[0]);
    }
  }

  /** The rows a query matches, newest first. */
  function Matching(table: seq<Record>, want: Record -> bool): seq<Record> {
    OrderDesc(Filter(want, table))
  }

  function Remaining(rows: seq<Record>, cursor: Option<Cursor>): seq<Record> {
    Filter(CursorWhere(cursor), rows)
  }

  /** A page query sees exactly the ordered matching rows beyond its cursor. */
  lemma PageSeesRemaining(table: seq<Record>, want: Record -> bool, limit: nat, cursor: Option<Cursor>)
    requires UniqueIds(table) && limit > 0
    ensures Descending(Matching(table, want))
    ensures ListPage(table, want, limit, cursor) == PageOf(Remaining(Matching(table, want), cursor), limit)
  {
    FilterUnique(want, table);
    OrderDescSorts(Filter(want, table));
    FilterTwice(want, CursorWhere(cursor), table);
    OrderFilter(CursorWhere(cursor), Filter(want, table));
  }

  // ----- following nextCursor -----

  /** Everything beyond a row's cursor was beyond the cursor the row itself was found with. */
  lemma CursorAdvances(cursor: Option<Cursor>, tail: Record, r: Record)
    requires CursorWhere(cursor)(tail)
    ensures !Beyond(ToCursor(tail), tail)
    ensures Beyond(ToCursor(tail), r) ==> CursorWhere(cursor)(r)
  {
    TextLessIrreflexive(Id(tail));
    if cursor.Some? && Beyond(ToCursor(tail), r) && At(r) == Millis(tail) * MICROS == cursor.value.millis * MICROS {
      TextLessTransitive(Id(r), Id(tail), cursor.value.id);
    }
  }

  lemma {:induction false} FilterFewer(p: Record -> bool, q: Record -> bool, rows: seq<Record>, x: Record)
    requires forall r :: r in rows && q(r) ==> p(r)
    ensures |Filter(q, rows)| <= |Filter(p, rows)|
    ensures x in rows && p(x) && !q(x) ==> |Filter(q, rows)| < |Filter(p, rows)|
  {
    if |rows| != 0 {
      assert rows == [rows[0]] + rows[1..];
      FilterFewer(p, q, rows[1..], x);
    }
  }

  lemma PageAdvances(rows: seq<Record>, limit: nat, cursor: Option<Cursor>)
    requires limit > 0
    ensures var page := PageOf(Remaining(rows, cursor), limit);
            page.nextCursor.Some? ==> |Remaining(rows, page.nextCursor)| < |Remaining(rows, cursor)|
  {
    var rem := Remaining(rows, cursor);
    if |rem| > limit {
      var tail := rem[limit - 1];
      assert tail in rem;
      forall r ensures Beyond(ToCursor(tail), r) ==> CursorWhere(cursor)(r) {
        CursorAdvances(cursor, tail, r);
      }
      CursorAdvances(cursor, tail, tail);
      FilterFewer(CursorWhere(cursor), CursorWhere(Some(ToCursor(tail))), rows, tail);
    }
  }

  /** All items met by following nextCursor until it is null. */
  function Walk(rows: seq<Record>, limit: nat, cursor: Option<Cursor>): seq<Record>
    requires limit > 0
    decreases |Remaining(rows, cursor)|
  {
    var page := PageOf(Remaining(rows, cursor), limit);
    PageAdvances(rows, limit, cursor);
    page.items + if page.nextCursor.None? then [] else Walk(rows, limit, page.nextCursor)
  }

  /** Each row's cursor keeps the next row in sight: no row is newer than the cut of the row before it. */
  predicate Separated(rows: seq<Record>) {
    forall i :: 0 <= i < |rows| - 1 ==> Beyond(ToCursor(rows[i]), rows[i + 1])
  }

  lemma {:induction false} FilterDescends(p: Record -> bool, rows: seq<Record>)
    requires Descending(rows)
    ensures Descending(Filter(p, rows))
  {
    if |rows| != 0 {
      var t := rows[1..];
      FilterDescends(p, t);
      var f := Filter(p, t);
      forall i | 0 <= i < |f| ensures Newer(rows[0], f[i]) {
        assert f[i] in t;
      }
    }
  }

  lemma WalkStep(rows: seq<Record>, limit: nat, cursor: Option<Cursor>)
    requires limit > 0
    ensures var rem := Remaining(rows, cursor);
            Walk(rows, limit, cursor) ==
            if |rem| <= limit then rem
            else rem[..limit] + Walk(rows, limit, Some(ToCursor(rem[limit - 1])))
  {
    var rem := Remaining(rows, cursor);
    if |rem| > limit + 1 {
      assert rem[..limit + 1][..limit] == rem[..limit];
    }
  }

  /** Whatever the stored precision, paging never repeats a row, never invents one and keeps the order. */
  lemma {:induction false} WalkIsOrdered(rows: seq<Record>, limit: nat, cursor: Option<Cursor>)
    requires limit > 0 && Descending(rows)
    ensures Descending(Walk(rows, limit, cursor))
    ensures forall r :: r in Walk(rows, limit, cursor) ==> r in rows && CursorWhere(cursor)(r)
    decreases |Remaining(rows, cursor)|
  {
    var rem := Remaining(rows, cursor);
    FilterDescends(CursorWhere(cursor), rows);
    WalkStep(rows, limit, cursor);
    if |rem| > limit {
      var tail := rem[limit - 1];
      assert tail in rem;
      PageAdvances(rows, limit, cursor);
      WalkIsOrdered(rows, limit, Some(ToCursor(tail)));
      JoinDescends(cursor, rem, limit, Walk(rows, limit, Some(ToCursor(tail))));
    }
  }

  lemma JoinDescends(cursor: Option<Cursor>, rem: seq<Record>, limit: nat, rest: seq<Record>)
    requires 0 < limit <= |rem| && Descending(rem) && Descending(rest)
    requires CursorWhere(cursor)(rem[limit - 1])
    requires forall r :: r in rest ==> Beyond(ToCursor(rem[limit - 1]), r)
    ensures Descending(rem[..limit] + rest)
    ensures forall r :: r in rest ==> CursorWhere(cursor)(r)
  {
    var tail := rem[limit - 1];
    forall r | r in rest ensures CursorWhere(cursor)(r) {
      CursorAdvances(cursor, tail, r);
    }
    forall i, j | 0 <= i < limit && 0 <= j < |rest| ensures Newer(rem[i], rest[j]) {
      assert rest[j] in rest;
      BeyondIsOlder(tail, rest[j]);
      NewerOrder(rem[i], tail, rest[j]);
    }
  }

  lemma BeyondIsOlder(a: Record, b: Record)
    requires Beyond(ToCursor(a), b)
    ensures Newer(a, b)
  {
  }

  lemma BeyondMore(a: Record, b: Record, c: Record)
    requires Beyond(ToCursor(a), b) && (b == c || Newer(b, c))
    ensures Beyond(ToCursor(a), c)
  {
    if At(b) == At(c) == Millis(a) * MICROS && b != c {
      TextLessTransitive(Id(c), Id(b), Id(a));
    }
  }

  lemma {:induction false} FilterSuffix(p: Record -> bool, rows: seq<Record>, n: nat)
    requires n <= |rows|
    requires forall i :: 0 <= i < |rows| ==> (p(rows[i]) <==> i >= n)
    ensures Filter(p, rows) == rows[n..]
  {
    if |rows| != 0 {
      var t := rows[1..];
      assert forall i :: 0 <= i < |t| ==> t[i] == rows[i + 1];
      FilterSuffix(p, t, if n > 0 then n - 1 else 0);
      assert n == 0 ==> rows == [rows[0]] + t;
    }
  }

  /** If the cursor of row i still shows row i + 1, it shows every later row and no earlier one. */
  lemma CutAt(rows: seq<Record>, i: nat)
    requires Descending(rows) && i < |rows|
    requires i + 1 < |rows| ==> Beyond(ToCursor(rows[i]), rows[i + 1])
    ensures Remaining(rows, Some(ToCursor(rows[i]))) == rows[i + 1..]
  {
    var p := CursorWhere(Some(ToCursor(rows[i])));
    forall j | 0 <= j < |rows| ensures p(rows[j]) <==> j >= i + 1 {
      if j > i {
        BeyondMore(rows[i], rows[i + 1], rows[j]);
      } else if p(rows[j]) {
        BeyondIsOlder(rows[i], rows[j]);
        NewerOrder(rows[i], rows[j], rows[i]);
      }
    }
    FilterSuffix(p, rows, i + 1);
  }

  /** The cursor after the first n rows. */
  function CursorAfter(rows: seq<Record>, n: nat): Option<Cursor>
    requires n <= |rows|
  {
    if n == 0 then None else Some(ToCursor(rows[n - 1]))
  }

  lemma RemainingAfter(rows: seq<Record>, n: nat)
    requires Descending(rows) && n <= |rows|
    requires 0 < n < |rows| ==> Beyond(ToCursor(rows[n - 1]), rows[n])
    ensures Remaining(rows, CursorAfter(rows, n)) == rows[n..]
  {
    if n == 0 {
      FilterSuffix(CursorWhere(None), rows, 0);
    } else {
      CutAt(rows, n - 1);
    }
  }

  /** Every cut after row n falls where the cursor of the last row shown keeps the next row in sight. */
  predicate PagesShow(rows: seq<Record>, limit: nat, n: nat)
    requires limit > 0
    decreases |rows| - n
  {
    n + limit >= |rows|
    || (Beyond(ToCursor(rows[n + limit - 1]), rows[n + limit]) && PagesShow(rows, limit, n + limit))
  }

  lemma PassedForGood(rows: seq<Record>, limit: nat, a: Record, lost: Record)
    requires limit > 0 && Descending(rows) && !Beyond(ToCursor(a), lost)
    ensures lost !in Walk(rows, limit, Some(ToCursor(a)))
  {
    WalkIsOrdered(rows, limit, Some(ToCursor(a)));
  }

  lemma NotYetShown(rows: seq<Record>, n: nat, k: nat, r: Record)
    requires Descending(rows) && n <= k <= |rows| && r in rows[k..]
    ensures r !in rows[n..k] && r in rows[n..]
  {
    var i :| 0 <= i < |rows| - k && rows[k..][i] == r;
    assert rows[k + i] == r && rows[n..][k + i - n] == r;
    forall j | 0 <= j < k - n ensures rows[n..k][j] != r {
      assert Newer(rows[n + j], rows[k + i]);
      NewerOrder(r, r, r);
    }
  }

  /** From a cut that shows the next row, the walk gives the remaining rows or loses one of them for good. */
  lemma {:induction false} WalkFrom(rows: seq<Record>, limit: nat, n: nat)
    requires Descending(rows) && limit > 0 && n <= |rows|
    requires 0 < n < |rows| ==> Beyond(ToCursor(rows[n - 1]), rows[n])
    ensures PagesShow(rows, limit, n) ==> Walk(rows, limit, CursorAfter(rows, n)) == rows[n..]
    ensures !PagesShow(rows, limit, n) ==> exists r :: r in rows[n..] && r !in Walk(rows, limit, CursorAfter(rows, n))
    decreases |rows| - n
  {
    hide Walk, Beyond, ToCursor, Descending, CursorAfter;
    OnePage(rows, limit, n);
    if n + limit < |rows| {
      var k := n + limit;
      var rest := Walk(rows, limit, CursorAfter(rows, k));
      if Beyond(ToCursor(rows[k - 1]), rows[k]) {
        WalkFrom(rows, limit, k);
        assert rows[n..k] + rows[k..] == rows[n..];
        if !PagesShow(rows, limit, k) {
          var r :| r in rows[k..] && r !in rest;
          NotYetShown(rows, n, k, r);
        }
      } else {
        NextRowLost(rows, limit, k);
        assert rows[k..][0] == rows[k];
        NotYetShown(rows, n, k, rows[k]);
      }
    }
  }

  lemma OnePage(rows: seq<Record>, limit: nat, n: nat)
    requires Descending(rows) && limit > 0 && n <= |rows|
    requires 0 < n < |rows| ==> Beyond(ToCursor(rows[n - 1]), rows[n])
    ensures var k := n + limit;
            Walk(rows, limit, CursorAfter(rows, n)) ==
            if k >= |rows| then rows[n..] else rows[n..k] + Walk(rows, limit, CursorAfter(rows, k))
  {
    RemainingAfter(rows, n);
    WalkStep(rows, limit, CursorAfter(rows, n));
    hide Walk, Remaining, Descending;
    if n + limit < |rows| {
      assert rows[n..][limit - 1] == rows[n + limit - 1] && rows[n..][..limit] == rows[n..n + limit];
    }
  }

  lemma NextRowLost(rows: seq<Record>, limit: nat, k: nat)
    requires Descending(rows) && limit > 0 && 0 < k < |rows| && !Beyond(ToCursor(rows[k - 1]), rows[k])
    ensures rows[k] !in Walk(rows, limit, CursorAfter(rows, k))
  {
    PassedForGood(rows, limit, rows[k - 1], rows[k]);
  }

  /**
   Paging with one given limit: the pages put together are the filtered rows exactly when each page's cursor keeps the
   next row in sight, and otherwise some row is on no page.
   */
  lemma WalkIsWholeExactly(rows: seq<Record>, limit: nat)
    requires Descending(rows) && limit > 0
    ensures Walk(rows, limit, None) == rows <==> PagesShow(rows, limit, 0)
    ensures PagesShow(rows, limit, 0) <==> forall r :: r in rows ==> r in Walk(rows, limit, None)
  {
    WalkFrom(rows, limit, 0);
    assert rows[0..] == rows;
  }

  /** The cut between two neighbours loses the older one exactly when both times read as one millisecond and either the
      older one's stored time is not that millisecond itself or its id does not come first. */
  lemma CutLosesExactly(a: Record, b: Record)
    requires Newer(a, b)
    ensures !Beyond(ToCursor(a), b) <==> Millis(a) == Millis(b) && (!WholeMillisecond(b) || !TextLess(Id(b), Id(a)))
  {
  }

  lemma {:induction false} SeparatedShows(rows: seq<Record>, limit: nat, n: nat)
    requires limit > 0 && Separated(rows)
    ensures PagesShow(rows, limit, n)
    decreases |rows| - n
  {
    if n + limit < |rows| {
      SeparatedShows(rows, limit, n + limit);
    }
  }

  lemma {:induction false} SingleRowPages(rows: seq<Record>, n: nat)
    requires PagesShow(rows, 1, n)
    ensures forall i :: n <= i < |rows| - 1 ==> Beyond(ToCursor(rows[i]), rows[i + 1])
    decreases |rows| - n
  {
    if n + 1 < |rows| {
      SingleRowPages(rows, n + 1);
    }
  }

  ghost predicate PagesExactly(rows: seq<Record>) {
    forall n: Number :: Walk(rows, ToPageLimit(n), None) == rows
  }

  /** Pages put together are the whole, for every page limit, exactly when each cursor keeps the next row in sight. */
  lemma PagesAreTheWhole(rows: seq<Record>)
    requires Descending(rows)
    ensures PagesExactly(rows) <==> Separated(rows)
  {
    if Separated(rows) {
      forall n: Number ensures Walk(rows, ToPageLimit(n), None) == rows {
        SeparatedShows(rows, ToPageLimit(n), 0);
        WalkIsWholeExactly(rows, ToPageLimit(n));
      }
    }
    if PagesExactly(rows) {
      assert ToPageLimit(Finite(1.0)) == 1;
      WalkIsWholeExactly(rows, 1);
      SingleRowPages(rows, 0);
    }
  }

  /**
   Audit logs page exactly as security events do: for every limit, exactly when each cursor keeps the next row in sight.
   */
  lemma AuditPagesExactly(table: seq<Record>, q: AuditQuery)
    requires UniqueIds(table)
    ensures PagesExactly(Matching(table, AuditWhere(q))) <==> Separated(Matching(table, AuditWhere(q)))
    ensures multiset(Matching(table, AuditWhere(q))) == multiset(Filter(AuditWhere(q), table))
  {
    MatchingDescends(table, AuditWhere(q));
    PagesAreTheWhole(Matching(table, AuditWhere(q)));
  }

  /** Rows that are all stamped by a Date, as createAuditLog's are, page without loss. */
  lemma DateStampedPagesAreTheWhole(table: seq<Record>, q: AuditQuery)
    requires UniqueIds(table) && forall r :: r in table && AuditWhere(q)(r) ==> WholeMillisecond(r)
    ensures PagesExactly(Matching(table, AuditWhere(q)))
  {
    var rows := Matching(table, AuditWhere(q));
    MatchingDescends(table, AuditWhere(q));
    forall i | 0 <= i < |rows| - 1 ensures Beyond(ToCursor(rows[i]), rows[i + 1]) {
      assert rows[i] in rows && rows[i + 1] in rows && Newer(rows[i], rows[i + 1]);
    }
    PagesAreTheWhole(rows);
  }

  /**
   A retention run's closing row, stamped inside a millisecond, ends a page; a row createAuditLog stamped with that
   millisecond follows, and its id comes later: it is on no page.
   */
  lemma AuditPagesCanLoseRows(closing: AuditChain.Row, fraction: Fraction, row: AuditChain.Row)
    requires closing.createdAt == row.createdAt && fraction > 0 && TextLess(closing.id, row.id)
    ensures Descending([Log(closing, fraction), Log(row, 0)])
    ensures row.id != closing.id && Log(row, 0) !in Walk([Log(closing, fraction), Log(row, 0)], 1, None)
  {
    TwoRowsOnePage(Log(closing, fraction), Log(row, 0));
    TextLessIrreflexive(row.id);
    NotBoth(closing.id, row.id);
  }

  lemma NotBoth(a: string, b: string)
    requires TextLess(a, b)
    ensures !TextLess(b, a)
  {
    if TextLess(b, a) {
      TextLessTransitive(a, b, a);
      TextLessIrreflexive(a);
    }
  }

  /** Two rows, one a page: the older one is lost exactly when the newer one's cursor does not show it. */
  lemma TwoRowsOnePage(a: Record, b: Record)
    requires Newer(a, b)
    ensures b !in Walk([a, b], 1, None) <==> !Beyond(ToCursor(a), b)
  {
    var rows := [a, b];
    RemainingAfter(rows, 0);
    WalkStep(rows, 1, None);
    assert Walk(rows, 1, None) == [a] + Walk(rows, 1, Some(ToCursor(a)));
    NewerOrder(a, b, a);
    if Beyond(ToCursor(a), b) {
      RemainingAfter(rows, 1);
      WalkStep(rows, 1, CursorAfter(rows, 1));
      assert rows[1..] == [b];
    } else {
      PassedForGood(rows, 1, a, b);
    }
  }

  /**
   Two security events within one millisecond, one a page: when the older one is off the whole millisecond it is lost.
   */
  lemma EventPagesCanLoseRows(a: SecurityEvent, b: SecurityEvent)
    requires a.createdAt > b.createdAt && a.createdAt / MICROS == b.createdAt / MICROS
    ensures Event(b) !in Walk([Event(a), Event(b)], 1, None) <==> b.createdAt % MICROS != 0 || !TextLess(b.id, a.id)
  {
    TwoRowsOnePage(Event(a), Event(b));
    CutLosesExactly(Event(a), Event(b));
  }

  /** Which audit logs a query lists: an absent or empty filter admits all, both ends of the time range are included. */
  lemma ListedLogs(table: seq<Record>, q: AuditQuery, row: AuditChain.Row, fraction: Fraction)
    requires UniqueIds(table)
    ensures Log(row, fraction) in Matching(table, AuditWhere(q)) <==>
            && Log(row, fraction) in table
            && (q.from == None || q.from.value <= row.createdAt)
            && (q.to == None || row.createdAt < q.to.value || (row.createdAt == q.to.value && fraction == 0))
            && (q.actorUserId == None || q.actorUserId == Some("") || q.actorUserId == row.actorUserId)
            && (q.action == None || q.action == Some("") || q.action == Some(row.action))
            && (q.resourceType == None || q.resourceType == Some("") || q.resourceType == Some(row.resourceType))
            && (q.resourceId == None || q.resourceId == Some("") || q.resourceId == row.resourceId)
  {
    MatchingDescends(table, AuditWhere(q));
  }

  /** Which security events a query lists; their times are microseconds. */
  lemma ListedEvents(table: seq<Record>, q: EventQuery, e: SecurityEvent)
    requires UniqueIds(table)
    ensures Event(e) in Matching(table, EventWhere(q)) <==>
            && Event(e) in table
            && (q.from == None || q.from.value * 1000 <= e.createdAt)
            && (q.to == None || e.createdAt <= q.to.value * 1000)
            && (q.userId == None || q.userId == Some("") || q.userId == e.userId)
            && (q.eventType == None || q.eventType == Some("") || q.eventType == Some(e.eventType))
  {
    MatchingDescends(table, EventWhere(q));
  }

  lemma ListedKinds(table: seq<Record>, q: AuditQuery, p: EventQuery)
    requires UniqueIds(table)
    ensures forall r :: r in Matching(table, AuditWhere(q)) ==> r.Log?
    ensures forall r :: r in Matching(table, EventWhere(p)) ==> r.Event?
  {
    MatchingDescends(table, AuditWhere(q));
    MatchingDescends(table, EventWhere(p));
  }

  lemma MatchingDescends(table: seq<Record>, want: Record -> bool)
    requires UniqueIds(table)
    ensures Descending(Matching(table, want))
    ensures multiset(Matching(table, want)) == multiset(Filter(want, table))
    ensures forall r :: r in Matching(table, want) <==> r in table && want(r)
  {
    FilterUnique(want, table);
    OrderDescSorts(Filter(want, table));
  }

  // ----- paging while rows arrive -----

  /**
   Between two queries no matching row was lost, and no row that matches anew lies beyond the cursor of an old one.
   */
  ghost predicate GainedAhead(first: seq<Record>, later: seq<Record>, want: Record -> bool) {
    && (forall r :: r in first && want(r) ==> r in later)
    && (forall r, x :: r in later && want(r) && r !in first && x in first && want(x) ==> !Beyond(ToCursor(x), r))
  }

  /** `tables(k)` is the table as the k-th page query finds it. */
  ghost predicate GainsAhead(tables: nat -> seq<Record>, want: Record -> bool) {
    forall k :: GainedAhead(tables(0), tables(k), want)
  }

  ghost predicate AlwaysUniqueIds(tables: nat -> seq<Record>) {
    forall k :: UniqueIds(tables(k))
  }

  /** The first query starts without a cursor; every other cursor was cut at a row the first query could see. */
  ghost predicate CutInFirst(first: seq<Record>, want: Record -> bool, k: nat, cursor: Option<Cursor>) {
    if cursor.None? then k == 0 else exists x :: x in first && want(x) && ToCursor(x) == cursor.value
  }

  lemma DescendingHeads(a: seq<Record>, b: seq<Record>)
    requires Descending(a) && Descending(b) && |a| > 0 && |b| > 0
    requires forall r :: r in a <==> r in b
    ensures a[0] == b[0]
  {
    assert a[0] in b && b[0] in a;
    NewerOrder(a[0], b[0], a[0]);
  }

  lemma DescendingTail(a: seq<Record>)
    requires Descending(a) && |a| > 0
    ensures Descending(a[1..]) && forall r :: r in a[1..] <==> r in a && r != a[0]
  {
    NewerOrder(a[0], a[0], a[0]);
    assert forall i :: 0 <= i < |a[1..]| ==> a[1..][i] == a[i + 1] && Newer(a[0], a[i + 1]);
    assert a == [a[0]] + a[1..];
  }

  lemma {:induction false} DescendingUnique(a: seq<Record>, b: seq<Record>)
    requires Descending(a) && Descending(b)
    requires forall r :: r in a <==> r in b
    ensures a == b
  {
    HasElement(a);
    HasElement(b);
    if |a| > 0 && |b| > 0 {
      DescendingHeads(a, b);
      DescendingTail(a);
      DescendingTail(b);
      hide Descending;
      DescendingUnique(a[1..], b[1..]);
      assert a == [a[0]] + a[1..] && b == [b[0]] + b[1..];
    }
  }

  /** Rows gained ahead of the cuts are not among the rows that remain. */
  lemma SameRemaining(first: seq<Record>, later: seq<Record>, want: Record -> bool, x: Record)
    requires UniqueIds(first) && UniqueIds(later) && GainedAhead(first, later, want) && x in first && want(x)
    ensures Remaining(Matching(later, want), Some(ToCursor(x))) == Remaining(Matching(first, want), Some(ToCursor(x)))
  {
    var p := CursorWhere(Some(ToCursor(x)));
    MatchingDescends(first, want);
    MatchingDescends(later, want);
    FilterDescends(p, Matching(first, want));
    FilterDescends(p, Matching(later, want));
    DescendingUnique(Remaining(Matching(later, want), Some(ToCursor(x))),
                     Remaining(Matching(first, want), Some(ToCursor(x))));
  }

  /** Every page is the one the first query's table would have given. */
  lemma PageSeesFirst(tables: nat -> seq<Record>, want: Record -> bool, limit: nat, k: nat, cursor: Option<Cursor>)
    requires AlwaysUniqueIds(tables) && GainsAhead(tables, want) && limit > 0
    requires CutInFirst(tables(0), want, k, cursor)
    ensures ListPage(tables(k), want, limit, cursor) == PageOf(Remaining(Matching(tables(0), want), cursor), limit)
  {
    PageSeesRemaining(tables(k), want, limit, cursor);
    if cursor.Some? {
      var x :| x in tables(0) && want(x) && ToCursor(x) == cursor.value;
      assert GainedAhead(tables(0), tables(k), want);
      SameRemaining(tables(0), tables(k), want, x);
    }
  }

  lemma NextCutInFirst(table: seq<Record>, want: Record -> bool, limit: nat, k: nat, cursor: Option<Cursor>)
    requires UniqueIds(table) && limit > 0
    ensures var page := PageOf(Remaining(Matching(table, want), cursor), limit);
            page.nextCursor.Some? ==> CutInFirst(table, want, k + 1, page.nextCursor)
  {
    MatchingDescends(table, want);
    var rem := Remaining(Matching(table, want), cursor);
    if |rem| > limit {
      assert rem[limit - 1] in rem;
    }
  }

  /** All items met by following nextCursor over a table that changes between the queries. */
  ghost function LiveWalk(tables: nat -> seq<Record>, want: Record -> bool, limit: nat, k: nat, cursor: Option<Cursor>)
    : seq<Record>
    requires AlwaysUniqueIds(tables) && GainsAhead(tables, want) && limit > 0
    requires CutInFirst(tables(0), want, k, cursor)
    decreases |Remaining(Matching(tables(0), want), cursor)|
  {
    var page := ListPage(tables(k), want, limit, cursor);
    PageSeesFirst(tables, want, limit, k, cursor);
    PageAdvances(Matching(tables(0), want), limit, cursor);
    NextCutInFirst(tables(0), want, limit, k, cursor);
    page.items + if page.nextCursor.None? then [] else LiveWalk(tables, want, limit, k + 1, page.nextCursor)
  }

  lemma LiveStep(tables: nat -> seq<Record>, want: Record -> bool, limit: nat, k: nat, cursor: Option<Cursor>)
    requires AlwaysUniqueIds(tables) && GainsAhead(tables, want) && limit > 0
    requires CutInFirst(tables(0), want, k, cursor)
    ensures var page := PageOf(Remaining(Matching(tables(0), want), cursor), limit);
            && ListPage(tables(k), want, limit, cursor) == page
            && (page.nextCursor.Some? ==> CutInFirst(tables(0), want, k + 1, page.nextCursor))
  {
    PageSeesFirst(tables, want, limit, k, cursor);
    NextCutInFirst(tables(0), want, limit, k, cursor);
  }

  lemma {:induction false} LiveWalkIsWalk(
      tables: nat -> seq<Record>, want: Record -> bool, limit: nat, k: nat, cursor: Option<Cursor>)
    requires AlwaysUniqueIds(tables) && GainsAhead(tables, want) && limit > 0
    requires CutInFirst(tables(0), want, k, cursor)
    ensures LiveWalk(tables, want, limit, k, cursor) == Walk(Matching(tables(0), want), limit, cursor)
    decreases |Remaining(Matching(tables(0), want), cursor)|
  {
    hide GainsAhead, AlwaysUniqueIds, CutInFirst, ListPage, PageOf, Remaining, Matching;
    LiveStep(tables, want, limit, k, cursor);
    PageAdvances(Matching(tables(0), want), limit, cursor);
    var page := PageOf(Remaining(Matching(tables(0), want), cursor), limit);
    if page.nextCursor.Some? {
      LiveWalkIsWalk(tables, want, limit, k + 1, page.nextCursor);
    }
  }

  /**
   While rows arrive only ahead of the cuts, the pages put together are the rows that matched when the first page was
   read, exactly when each of its cuts keeps the next row in sight.
   */
  lemma LivePagesExactly(tables: nat -> seq<Record>, want: Record -> bool, limit: nat)
    requires AlwaysUniqueIds(tables) && GainsAhead(tables, want) && limit > 0
    ensures LiveWalk(tables, want, limit, 0, None) == Matching(tables(0), want) <==>
            PagesShow(Matching(tables(0), want), limit, 0)
  {
    LiveWalkIsWalk(tables, want, limit, 0, None);
    MatchingDescends(tables(0), want);
    WalkIsWholeExactly(Matching(tables(0), want), limit);
  }

  /** Rows newer than all that matched at first are ahead of every cut, and so are rows that do not match. */
  lemma NewerIsAhead(first: seq<Record>, later: seq<Record>, want: Record -> bool)
    requires forall r :: r in first && want(r) ==> r in later
    requires forall r, x :: r in later && r !in first && want(r) && x in first && want(x) ==> Newer(r, x)
    ensures GainedAhead(first, later, want)
  {
    forall r, x | r in later && want(r) && r !in first && x in first && want(x) ensures !Beyond(ToCursor(x), r) {
      if Beyond(ToCursor(x), r) {
        BeyondIsOlder(x, r);
        NewerOrder(r, x, r);
      }
    }
  }
}

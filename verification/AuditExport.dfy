/** The audit export: pages of both tables collected, sorted, and marked truncated or not. */
module AuditExport {
  import opened Prelude
  import opened AuditPaging
  import Canonical
  import Json

  const EXPORT_PAGE_SIZE: nat := 200
  const EXPORT_MAX_RECORDS: nat := 10_000

  datatype Kind = AuditLogs | SecurityEvents | BothKinds

  /** At most the first 10,000 rows. */
  function Capped(rows: seq<Record>): (r: seq<Record>)
    ensures |r| <= EXPORT_MAX_RECORDS
  {
    if |rows| > EXPORT_MAX_RECORDS then rows[..EXPORT_MAX_RECORDS] else rows
  }

  datatype Export = Export(records: seq<Record>, recordCount: nat, truncated: bool)

  /** localeCompare on the ISO text of createdAt (milliseconds), then on the id. */
  predicate ExportLess(le: Canonical.Collation, a: Record, b: Record) {
    Millis(a) < Millis(b) || (Millis(a) == Millis(b) && le(Id(a), Id(b)))
  }

  function ExportInsert(le: Canonical.Collation, r: Record, rows: seq<Record>): seq<Record> {
    if |rows| == 0 then [r]
    else if ExportLess(le, r, rows[0]) then [r] + rows
    else [rows[0]] + ExportInsert(le, r, rows[1..])
  }

  /** records.sort with the export's comparator. */
  function ExportSort(le: Canonical.Collation, rows: seq<Record>): seq<Record> {
    if |rows| == 0 then [] else ExportInsert(le, rows[0], ExportSort(le, rows[1..]))
  }

  /** Earlier milliseconds first, then the ids in the order of the collation. */
  predicate ExportAscending(le: Canonical.Collation, rows: seq<Record>) {
    forall i, j :: 0 <= i < j < |rows| ==>
      && At(rows[i]) / 1000 <= At(rows[j]) / 1000
      && (At(rows[i]) / 1000 == At(rows[j]) / 1000 ==> le(Id(rows[i]), Id(rows[j])))
  }

  lemma AscendingExactly(le: Canonical.Collation, rows: seq<Record>)
    ensures ExportAscending(le, rows) <==> forall i, j :: 0 <= i < j < |rows| ==> ExportLess(le, rows[i], rows[j])
  {
  }

  lemma {:induction false} ExportInsertKeeps(le: Canonical.Collation, r: Record, rows: seq<Record>)
    ensures multiset(ExportInsert(le, r, rows)) == multiset(rows) + multiset{r}
    ensures forall x :: x in ExportInsert(le, r, rows) <==> x == r || x in rows
  {
    if |rows| != 0 {
      assert rows == [rows[0]] + rows[1..];
      ExportInsertKeeps(le, r, rows[1..]);
    }
  }

  lemma ExportOrder(le: Canonical.Collation, a: Record, b: Record, c: Record)
    requires Canonical.TotalPreorder(le)
    ensures ExportLess(le, a, b) || ExportLess(le, b, a)
    ensures ExportLess(le, a, b) && ExportLess(le, b, c) ==> ExportLess(le, a, c)
  {
  }

  lemma {:induction false} ExportInsertSorts(le: Canonical.Collation, r: Record, rows: seq<Record>)
    requires Canonical.TotalPreorder(le) && ExportAscending(le, rows)
    ensures ExportAscending(le, ExportInsert(le, r, rows))
  {
    AscendingExactly(le, rows);
    AscendingExactly(le, ExportInsert(le, r, rows));
    hide ExportAscending, ExportLess;
    if |rows| != 0 {
      var t := rows[1..];
      AscendingExactly(le, t);
      AscendingExactly(le, ExportInsert(le, r, t));
      if ExportLess(le, r, rows[0]) {
        forall j | 0 <= j < |rows| ensures ExportLess(le, r, rows[j]) {
          ExportOrder(le, r, rows[0], rows[j]);
        }
      } else {
        ExportInsertSorts(le, r, t);
        ExportInsertKeeps(le, r, t);
        ExportOrder(le, r, rows[0], r);
        var u := ExportInsert(le, r, t);
        forall j | 0 <= j < |u| ensures ExportLess(le, rows[0], u[j]) {
          assert u[j] in u;
        }
      }
    }
  }

  /** The exported records are an ascending permutation of what was collected. */
  lemma {:induction false} ExportSortSorts(le: Canonical.Collation, rows: seq<Record>)
    requires Canonical.TotalPreorder(le)
    ensures ExportAscending(le, ExportSort(le, rows))
    ensures multiset(ExportSort(le, rows)) == multiset(rows)
    ensures |ExportSort(le, rows)| == |rows|
  {
    if |rows| != 0 {
      assert rows == [rows[0]] + rows[1..];
      ExportSortSorts(le, rows[1..]);
      ExportInsertSorts(le, rows[0], ExportSort(le, rows[1..]));
      ExportInsertKeeps(le, rows[0], ExportSort(le, rows[1..]));
    }
    assert |multiset(ExportSort(le, rows))| == |multiset(rows)|;
  }

  // ----- collecting -----

  /** Each of the export's pages shows the row that follows it. */
  predicate ExportShows(rows: seq<Record>) {
    PagesShow(rows, EXPORT_PAGE_SIZE, 0)
  }

  /** So far the first rows, and whether the rest will follow is told by the cuts from here on. */
  predicate OnTrack(rows: seq<Record>, n: nat) {
    var c := Capped(rows);
    && n <= |rows|
    && (ExportShows(c) <==>
          n >= |c| || ((n > 0 ==> Beyond(ToCursor(c[n - 1]), c[n])) && PagesShow(c, EXPORT_PAGE_SIZE, n)))
  }

  /** A row that belongs in the export was passed over for good. */
  ghost predicate OffTrack(rows: seq<Record>, records: seq<Record>) {
    && !ExportShows(Capped(rows)) && |records| > 0
    && exists r :: r in Capped(rows) && r !in records && !Beyond(ToCursor(records[|records| - 1]), r)
  }

  function CursorOf(records: seq<Record>): Option<Cursor> {
    if |records| == 0 then None else Some(ToCursor(records[|records| - 1]))
  }

  /** What the loop has collected so far and the cursor it goes on with. */
  ghost predicate Collecting(rows: seq<Record>, records: seq<Record>, cursor: Option<Cursor>) {
    && Descending(records)
    && (forall r :: r in records ==> r in rows)
    && cursor == CursorOf(records)
    && ((records <= rows && OnTrack(rows, |records|)) || OffTrack(rows, records))
  }

  /**
   The result of the loop over one table: matching rows in order without repeats, the first 10,000 of them exactly when
   each page shows the row that follows it, and otherwise with one of those missing.
   */
  ghost predicate Collected(rows: seq<Record>, records: seq<Record>) {
    && |records| <= EXPORT_MAX_RECORDS
    && Descending(records)
    && (forall r :: r in records ==> r in rows)
    && (if ExportShows(Capped(rows)) then records == Capped(rows) else exists r :: r in Capped(rows) && r !in records)
  }

  lemma PageShape(rem: seq<Record>, limit: nat)
    requires limit > 0
    ensures var page := PageOf(rem, limit);
            && page.items == (if |rem| > limit then rem[..limit] else rem)
            && (page.nextCursor.Some? <==> |rem| > limit)
            && (page.nextCursor.Some? ==> page.nextCursor == Some(ToCursor(page.items[limit - 1])))
  {
    if |rem| > limit + 1 {
      assert rem[..limit + 1][..limit] == rem[..limit];
    }
  }

  lemma CollectedInOrder(rows: seq<Record>, records: seq<Record>, items: seq<Record>)
    requires Descending(rows) && Descending(records) && items <= Remaining(rows, CursorOf(records))
    ensures Descending(records + items)
    ensures forall r :: r in items ==> r in rows && CursorWhere(CursorOf(records))(r)
  {
    var rem := Remaining(rows, CursorOf(records));
    FilterDescends(CursorWhere(CursorOf(records)), rows);
    forall r | r in items ensures r in rem {
      var i :| 0 <= i < |items| && items[i] == r;
      assert rem[i] == r;
    }
    assert Descending(items) by {
      assert forall i :: 0 <= i < |items| ==> items[i] == rem[i];
    }
    if |records| > 0 {
      assert records[..|records|] == records;
      JoinDescends(None, records, |records|, items);
    } else {
      assert records + items == items;
    }
  }

  /** One page further from a cut that shows the next row: on track still, or done. */
  lemma OnTrackStep(rows: seq<Record>, n: nat)
    requires Descending(rows) && n < EXPORT_MAX_RECORDS && n % EXPORT_PAGE_SIZE == 0 && OnTrack(rows, n)
    requires 0 < n < |rows| ==> Beyond(ToCursor(rows[n - 1]), rows[n])
    ensures n + EXPORT_PAGE_SIZE < |rows| ==> OnTrack(rows, n + EXPORT_PAGE_SIZE)
    ensures n + EXPORT_PAGE_SIZE >= |rows| ==> ExportShows(Capped(rows)) && Capped(rows) == rows
  {
    var c := Capped(rows);
    assert n < |c| ==> c[n] == rows[n] && (n > 0 ==> c[n - 1] == rows[n - 1]);
  }

  lemma CappedPrefix(rows: seq<Record>, n: nat)
    requires n < |rows| && n < EXPORT_MAX_RECORDS
    ensures n < |Capped(rows)| && Capped(rows)[n] == rows[n] && (n > 0 ==> Capped(rows)[n - 1] == rows[n - 1])
    ensures rows[n] in Capped(rows)
  {
    assert Capped(rows)[n] == rows[n];
  }

  /** At a cut that does not show the next row that row is lost, now and later. */
  lemma Derails(rows: seq<Record>, records: seq<Record>)
    requires Descending(rows) && records <= rows && OnTrack(rows, |records|)
    requires 0 < |records| < |rows| && |records| < EXPORT_MAX_RECORDS
    requires !Beyond(ToCursor(records[|records| - 1]), rows[|records|])
    ensures OffTrack(rows, records)
  {
    var n := |records|;
    CappedPrefix(rows, n);
    assert rows[n - 1] == records[n - 1];
    forall i | 0 <= i < n ensures records[i] != rows[n] {
      assert records[i] == rows[i] && Newer(rows[i], rows[n]);
      NewerOrder(rows[n], rows[n], rows[n]);
    }
  }

  lemma StaysOffTrack(rows: seq<Record>, records: seq<Record>, items: seq<Record>)
    requires OffTrack(rows, records) && forall r :: r in items ==> CursorWhere(CursorOf(records))(r)
    ensures OffTrack(rows, records + items)
  {
    var lost :| lost in Capped(rows) && lost !in records && !Beyond(ToCursor(records[|records| - 1]), lost);
    var more := records + items;
    if |items| > 0 {
      var tail := items[|items| - 1];
      assert more[|more| - 1] == tail && tail in items;
      CursorAdvances(CursorOf(records), tail, lost);
    } else {
      assert more == records;
    }
    assert lost !in more;
  }

  lemma CollectStep(rows: seq<Record>, records: seq<Record>)
    requires Descending(rows) && Collecting(rows, records, CursorOf(records))
    requires |records| < EXPORT_MAX_RECORDS && |records| % EXPORT_PAGE_SIZE == 0
    ensures var page := PageOf(Remaining(rows, CursorOf(records)), EXPORT_PAGE_SIZE);
            && |page.items| <= EXPORT_PAGE_SIZE
            && (page.nextCursor.Some? ==> |page.items| == EXPORT_PAGE_SIZE
                                          && Collecting(rows, records + page.items, page.nextCursor))
            && (page.nextCursor.None? ==> Collected(rows, records + page.items))
  {
    hide OnTrack, OffTrack, ExportShows, Descending, PageOf, Remaining, Capped;
    var rem := Remaining(rows, CursorOf(records));
    var page := PageOf(rem, EXPORT_PAGE_SIZE);
    var more := records + page.items;
    PageShape(rem, EXPORT_PAGE_SIZE);
    CollectedInOrder(rows, records, page.items);
    assert page.nextCursor.Some? ==> page.nextCursor == CursorOf(more);
    if records <= rows && OnTrack(rows, |records|) {
      OnTrackPage(rows, records);
    } else {
      StaysOffTrack(rows, records, page.items);
    }
    if page.nextCursor.None? && OffTrack(rows, more) {
      OffTrackLost(rows, more);
    }
  }

  lemma OffTrackLost(rows: seq<Record>, records: seq<Record>)
    requires OffTrack(rows, records)
    ensures !ExportShows(Capped(rows)) && exists r :: r in Capped(rows) && r !in records
  {
  }

  lemma OnTrackPage(rows: seq<Record>, records: seq<Record>)
    requires Descending(rows) && records <= rows && OnTrack(rows, |records|)
    requires |records| < EXPORT_MAX_RECORDS && |records| % EXPORT_PAGE_SIZE == 0
    ensures var page := PageOf(Remaining(rows, CursorOf(records)), EXPORT_PAGE_SIZE);
            var more := records + page.items;
            || OffTrack(rows, more)
            || (page.nextCursor.Some? && more <= rows && OnTrack(rows, |more|))
            || (page.nextCursor.None? && ExportShows(Capped(rows)) && more == Capped(rows))
  {
    hide OnTrack, OffTrack, ExportShows, PageOf, Remaining, Capped;
    var n := |records|;
    var rem := Remaining(rows, CursorOf(records));
    PageShape(rem, EXPORT_PAGE_SIZE);
    assert n > 0 ==> records[n - 1] == rows[n - 1];
    if 0 < n < |rows| && !Beyond(ToCursor(rows[n - 1]), rows[n]) {
      Derails(rows, records);
      CollectedInOrder(rows, records, PageOf(rem, EXPORT_PAGE_SIZE).items);
      StaysOffTrack(rows, records, PageOf(rem, EXPORT_PAGE_SIZE).items);
    } else {
      RemainingAfter(rows, n);
      assert rem == rows[n..] && rows == records + rem;
      OnTrackStep(rows, n);
    }
  }

  lemma NothingYet(tables: nat -> seq<Record>, want: Record -> bool)
    ensures Collecting(Matching(tables(0), want), [], None) && Drawn(tables, want, [])
  {
  }

  /** The loop stopped by the cap. */
  lemma FullIsCollected(rows: seq<Record>, records: seq<Record>, cursor: Option<Cursor>)
    requires Collecting(rows, records, cursor) && |records| == EXPORT_MAX_RECORDS
    ensures Collected(rows, records)
  {
    if records <= rows && OnTrack(rows, |records|) {
      assert Capped(rows) == rows[..EXPORT_MAX_RECORDS] == records;
    }
  }

  /** One turn of the loop, seen through the query, while rows arrive only ahead of the cuts. */
  lemma QueryStep(
      tables: nat -> seq<Record>, want: Record -> bool, k: nat, records: seq<Record>, cursor: Option<Cursor>)
    requires AlwaysUniqueIds(tables) && GainsAhead(tables, want)
    requires |records| < EXPORT_MAX_RECORDS && |records| == k * EXPORT_PAGE_SIZE
    requires Collecting(Matching(tables(0), want), records, cursor)
    ensures var page := ListPage(tables(k), want, EXPORT_PAGE_SIZE, cursor);
            var more := records + page.items;
            && (page.nextCursor.Some? ==> Collecting(Matching(tables(0), want), more, page.nextCursor))
            && (page.nextCursor.None? ==> Collected(Matching(tables(0), want), more))
  {
    QueryPage(tables, want, k, records, cursor);
    WholePages(k, |records|);
    hide *;
    CollectStep(Matching(tables(0), want), records);
  }

  lemma WholePages(k: nat, n: nat)
    requires n == k * EXPORT_PAGE_SIZE
    ensures n % EXPORT_PAGE_SIZE == 0
  {
  }

  lemma QueryPage(
      tables: nat -> seq<Record>, want: Record -> bool, k: nat, records: seq<Record>, cursor: Option<Cursor>)
    requires AlwaysUniqueIds(tables) && GainsAhead(tables, want)
    requires |records| == k * EXPORT_PAGE_SIZE && Collecting(Matching(tables(0), want), records, cursor)
    ensures Descending(Matching(tables(0), want)) && cursor == CursorOf(records)
    ensures ListPage(tables(k), want, EXPORT_PAGE_SIZE, cursor) ==
            PageOf(Remaining(Matching(tables(0), want), CursorOf(records)), EXPORT_PAGE_SIZE)
  {
    FirstDescends(tables, want);
    hide Collecting, AlwaysUniqueIds, GainsAhead, CutInFirst, Matching, ListPage, PageOf, Remaining, Descending;
    CursorInFirst(tables(0), want, k, records, cursor);
    PageSeesFirst(tables, want, EXPORT_PAGE_SIZE, k, cursor);
  }

  lemma CursorInFirst(first: seq<Record>, want: Record -> bool, k: nat, records: seq<Record>, cursor: Option<Cursor>)
    requires UniqueIds(first) && |records| == k * EXPORT_PAGE_SIZE
    requires Collecting(Matching(first, want), records, cursor)
    ensures CutInFirst(first, want, k, cursor) && cursor == CursorOf(records)
  {
    MatchingDescends(first, want);
    if |records| > 0 {
      assert records[|records| - 1] in records;
    }
  }

  lemma FirstDescends(tables: nat -> seq<Record>, want: Record -> bool)
    requires AlwaysUniqueIds(tables)
    ensures UniqueIds(tables(0)) && Descending(Matching(tables(0), want))
  {
    MatchingDescends(tables(0), want);
  }

  /** Matching rows, each seen by some query, in order and without repeats. */
  ghost predicate Drawn(tables: nat -> seq<Record>, want: Record -> bool, records: seq<Record>) {
    Descending(records) && forall r :: r in records ==> want(r) && exists k :: r in tables(k)
  }

  /** Whatever happens to the table between the queries, a page adds rows older than all before it. */
  lemma DrawnStep(tables: nat -> seq<Record>, want: Record -> bool, k: nat, records: seq<Record>)
    requires AlwaysUniqueIds(tables) && Drawn(tables, want, records)
    ensures var page := ListPage(tables(k), want, EXPORT_PAGE_SIZE, CursorOf(records));
            var more := records + page.items;
            && |page.items| <= EXPORT_PAGE_SIZE && Drawn(tables, want, more)
            && (page.nextCursor.Some? ==> |page.items| == EXPORT_PAGE_SIZE && page.nextCursor == CursorOf(more))
  {
    var rows := Matching(tables(k), want);
    var rem := Remaining(rows, CursorOf(records));
    MatchingDescends(tables(k), want);
    PageSeesRemaining(tables(k), want, EXPORT_PAGE_SIZE, CursorOf(records));
    PageShape(rem, EXPORT_PAGE_SIZE);
    CollectedInOrder(rows, records, PageOf(rem, EXPORT_PAGE_SIZE).items);
  }

  // ----- the whole export -----

  /** An export of these matching rows of the tables its kind asks for. */
  ghost predicate Exported(logs: seq<Record>, events: seq<Record>, e: Export) {
    && multiset(e.records) <= multiset(logs) + multiset(events)
    && (ExportShows(Capped(logs)) && ExportShows(Capped(events)) <==>
          multiset(e.records) == multiset(Capped(logs)) + multiset(Capped(events)))
    && (ExportShows(Capped(logs)) && ExportShows(Capped(events)) ==>
          (e.truncated <==> |logs| + |events| >= EXPORT_MAX_RECORDS))
    && (e.truncated <==> |e.records| >= EXPORT_MAX_RECORDS)
    && (!e.truncated ==>
          (multiset(e.records) == multiset(logs) + multiset(events) <==> ExportShows(logs) && ExportShows(events)))
  }

  lemma {:induction false} CappedShows(rows: seq<Record>, n: nat)
    requires PagesShow(rows, EXPORT_PAGE_SIZE, n)
    ensures PagesShow(Capped(rows), EXPORT_PAGE_SIZE, n)
    decreases |rows| - n
  {
    if n + EXPORT_PAGE_SIZE < |rows| {
      CappedShows(rows, n + EXPORT_PAGE_SIZE);
    }
  }

  /** Rows in strict order without repeats, drawn from others, are a sub-multiset of them. */
  lemma {:induction false} DescendingFits(records: seq<Record>, rows: seq<Record>)
    requires Descending(records) && forall r :: r in records ==> r in rows
    ensures multiset(records) <= multiset(rows)
  {
    forall r | r in multiset(records) ensures multiset(records)[r] <= multiset(rows)[r] {
      assert r in records && r in rows;
      AtMostOnce(records, r);
    }
  }

  lemma {:induction false} AtMostOnce(records: seq<Record>, r: Record)
    requires Descending(records)
    ensures multiset(records)[r] <= 1
  {
    if |records| != 0 {
      var rest := records[1..];
      assert records == [records[0]] + rest;
      assert forall i :: 0 <= i < |rest| ==> rest[i] == records[i + 1];
      AtMostOnce(rest, r);
      if r == records[0] {
        NewerOrder(r, r, r);
        assert r !in rest;
      }
    }
  }

  lemma CollectedFits(rows: seq<Record>, records: seq<Record>)
    requires Collected(rows, records)
    ensures multiset(records) <= multiset(rows) && |records| <= |rows|
    ensures ExportShows(rows) ==> ExportShows(Capped(rows))
    ensures ExportShows(Capped(rows)) && |records| < EXPORT_MAX_RECORDS ==> Capped(rows) == rows == records
    ensures !ExportShows(Capped(rows)) ==> exists r :: r in Capped(rows) && r in rows && r !in records
  {
    DescendingFits(records, rows);
    assert multiset(rows) == multiset(records) + (multiset(rows) - multiset(records));
    assert |multiset(records)| <= |multiset(rows)|;
    if ExportShows(rows) {
      CappedShows(rows, 0);
    }
    assert forall r :: r in Capped(rows) ==> r in rows;
  }

  predicate AllLogs(rows: seq<Record>) {
    forall r :: r in rows ==> r.Log?
  }

  predicate AllEvents(rows: seq<Record>) {
    forall r :: r in rows ==> r.Event?
  }

  lemma LostBreaks(records: multiset<Record>, whole: multiset<Record>, r: Record)
    requires r in whole && r !in records
    ensures records != whole
  {
  }

  lemma CollectedIsExported(logs: seq<Record>, events: seq<Record>, ls: seq<Record>, es: seq<Record>, e: Export)
    requires AllLogs(logs) && AllEvents(events) && Collected(logs, ls) && Collected(events, es)
    requires multiset(e.records) == multiset(ls) + multiset(es) && |e.records| == |ls| + |es|
    requires e.truncated <==> |e.records| >= EXPORT_MAX_RECORDS
    ensures Exported(logs, events, e)
  {
    CollectedFits(logs, ls);
    CollectedFits(events, es);
    if !ExportShows(Capped(logs)) {
      var r :| r in Capped(logs) && r in logs && r !in ls;
      assert r !in es;
      LostBreaks(multiset(e.records), multiset(Capped(logs)) + multiset(Capped(events)), r);
      LostBreaks(multiset(e.records), multiset(logs) + multiset(events), r);
    }
    if !ExportShows(Capped(events)) {
      var r :| r in Capped(events) && r in events && r !in es;
      assert r !in ls;
      LostBreaks(multiset(e.records), multiset(Capped(logs)) + multiset(Capped(events)), r);
      LostBreaks(multiset(e.records), multiset(logs) + multiset(events), r);
    }
  }

  /** The filter of an export on one table. */
  function LogsWanted(from: Option<int>, to: Option<int>): Record -> bool {
    AuditWhere(AuditQuery(from, to, None, None, None, None))
  }

  function EventsWanted(from: Option<int>, to: Option<int>): Record -> bool {
    EventWhere(EventQuery(from, to, None, None))
  }

  predicate Asks(kind: Kind, r: Record) {
    if r.Log? then !kind.SecurityEvents? else !kind.AuditLogs?
  }

  /** Records in the time range, of the kind asked for, each seen by some query, and none twice. */
  ghost predicate DrawnFor(
    from: Option<int>, to: Option<int>, kind: Kind, auditLogs: nat -> seq<Record>, securityEvents: nat -> seq<Record>,
    records: seq<Record>)
  {
    forall r :: r in multiset(records) ==>
      && multiset(records)[r] == 1 && Asks(kind, r) && TimeWanted(from, to, r)
      && exists k :: r in if r.Log? then auditLogs(k) else securityEvents(k)
  }

  lemma DrawnForExport(
    from: Option<int>, to: Option<int>, kind: Kind, auditLogs: nat -> seq<Record>, securityEvents: nat -> seq<Record>,
    ls: seq<Record>, es: seq<Record>, records: seq<Record>)
    requires Drawn(auditLogs, LogsWanted(from, to), ls) && Drawn(securityEvents, EventsWanted(from, to), es)
    requires (kind.SecurityEvents? ==> ls == []) && (kind.AuditLogs? ==> es == [])
    requires multiset(records) == multiset(ls) + multiset(es)
    ensures DrawnFor(from, to, kind, auditLogs, securityEvents, records)
  {
    forall r | r in multiset(records)
      ensures multiset(records)[r] == 1 && Asks(kind, r) && TimeWanted(from, to, r)
      ensures exists k :: r in if r.Log? then auditLogs(k) else securityEvents(k)
    {
      AtMostOnce(ls, r);
      AtMostOnce(es, r);
      assert r in ls ==> LogsWanted(from, to)(r);
      assert r in es ==> EventsWanted(from, to)(r);
      assert multiset(records)[r] == multiset(ls)[r] + multiset(es)[r];
    }
  }

  /**
   AuditExportService over the two tables, which other transactions may change while it runs: `auditLogs(k)` and
   `securityEvents(k)` are what the k-th page query finds.
   */
  class AuditExportService {
    const le: Canonical.Collation
    const auditLogs: nat -> seq<Record>
    const securityEvents: nat -> seq<Record>

    constructor (le: Canonical.Collation, auditLogs: nat -> seq<Record>, securityEvents: nat -> seq<Record>)
      ensures this.le == le && this.auditLogs == auditLogs && this.securityEvents == securityEvents
    {
      this.le, this.auditLogs, this.securityEvents := le, auditLogs, securityEvents;
    }

    /** Pages until the last page or 10,000 records: collectAuditLogs and collectSecurityEvents. */
    method Collect(tables: nat -> seq<Record>, want: Record -> bool) returns (records: seq<Record>)
      requires AlwaysUniqueIds(tables)
      ensures |records| <= EXPORT_MAX_RECORDS && Drawn(tables, want, records)
      ensures GainsAhead(tables, want) ==> Collected(Matching(tables(0), want), records)
    {
      hide Collecting, Collected, Drawn, ListPage, Matching, AlwaysUniqueIds, GainsAhead;
      records := [];
      var cursor: Option<Cursor>, queries := None, 0;
      NothingYet(tables, want);
      while |records| < EXPORT_MAX_RECORDS
        invariant |records| <= EXPORT_MAX_RECORDS && |records| == queries * EXPORT_PAGE_SIZE
        invariant cursor == CursorOf(records) && Drawn(tables, want, records)
        invariant GainsAhead(tables, want) ==> Collecting(Matching(tables(0), want), records, cursor)
        decreases EXPORT_MAX_RECORDS - |records|
      {
        var page := ListPage(tables(queries), want, EXPORT_PAGE_SIZE, cursor);
        DrawnStep(tables, want, queries, records);
        if GainsAhead(tables, want) {
          QueryStep(tables, want, queries, records, cursor);
        }
        records := records + page.items;
        if page.nextCursor.None? || |page.items| == 0 {
          return;
        }
        cursor, queries := page.nextCursor, queries + 1;
      }
      if GainsAhead(tables, want) {
        FullIsCollected(Matching(tables(0), want), records, cursor);
      }
    }

    /**
     The export holds matching rows of the tables its kind asks for, none twice. While rows arrive only ahead of the
     cuts, what it holds of the rows there were at first is told by the cuts of its 200-row pages.
     */
    method CreateExport(from: Option<int>, to: Option<int>, kind: Kind) returns (export_: Export)
      requires AlwaysUniqueIds(auditLogs) && AlwaysUniqueIds(securityEvents)
      requires Canonical.TotalPreorder(le)
      ensures ExportAscending(le, export_.records) && export_.recordCount == |export_.records|
      ensures export_.truncated <==> |export_.records| >= EXPORT_MAX_RECORDS
      ensures DrawnFor(from, to, kind, auditLogs, securityEvents, export_.records)
      ensures (kind.SecurityEvents? || GainsAhead(auditLogs, LogsWanted(from, to))) &&
              (kind.AuditLogs? || GainsAhead(securityEvents, EventsWanted(from, to))) ==>
                Exported(if kind.SecurityEvents? then [] else Matching(auditLogs(0), LogsWanted(from, to)),
                         if kind.AuditLogs? then [] else Matching(securityEvents(0), EventsWanted(from, to)),
                         export_)
    {
      hide ExportSort, ExportAscending, Collected, Exported, Drawn, DrawnFor, LogsWanted, EventsWanted, Matching,
        AlwaysUniqueIds, GainsAhead;
      var logs: seq<Record>, events: seq<Record> := [], [];
      NothingYet(auditLogs, LogsWanted(from, to));
      NothingYet(securityEvents, EventsWanted(from, to));
      if kind == AuditLogs || kind == BothKinds {
        logs := Collect(auditLogs, LogsWanted(from, to));
      }
      if kind == SecurityEvents || kind == BothKinds {
        events := Collect(securityEvents, EventsWanted(from, to));
      }
      var records := logs + events;
      ExportSortSorts(le, records);
      records := ExportSort(le, records);
      export_ := Export(records, |records|, |records| >= EXPORT_MAX_RECORDS);
      assert multiset(logs + events) == multiset(logs) + multiset(events);
      DrawnForExport(from, to, kind, auditLogs, securityEvents, logs, events, records);
      if (kind.SecurityEvents? || GainsAhead(auditLogs, LogsWanted(from, to))) &&
         (kind.AuditLogs? || GainsAhead(securityEvents, EventsWanted(from, to)))
      {
        NothingCollected();
        KindsApart(auditLogs, securityEvents, from, to);
        CollectedIsExported(if kind.SecurityEvents? then [] else Matching(auditLogs(0), LogsWanted(from, to)),
                            if kind.AuditLogs? then [] else Matching(securityEvents(0), EventsWanted(from, to)),
                            logs, events, export_);
      }
    }
  }

  lemma NothingCollected()
    ensures Collected([], []) && AllLogs([]) && AllEvents([])
  {
  }

  lemma KindsApart(
    auditLogs: nat -> seq<Record>, securityEvents: nat -> seq<Record>, from: Option<int>, to: Option<int>)
    requires AlwaysUniqueIds(auditLogs) && AlwaysUniqueIds(securityEvents)
    ensures AllLogs(Matching(auditLogs(0), LogsWanted(from, to)))
    ensures AllEvents(Matching(securityEvents(0), EventsWanted(from, to)))
  {
    MatchingDescends(auditLogs(0), LogsWanted(from, to));
    MatchingDescends(securityEvents(0), EventsWanted(from, to));
  }

  /** An export up to a past moment: rows stamped later do not match, so whatever is added meanwhile is ahead. */
  lemma PastRangeGainsAhead(tables: nat -> seq<Record>, from: Option<int>, to: int, events: bool)
    requires var want := if events then EventsWanted(from, Some(to)) else LogsWanted(from, Some(to));
             forall k, r :: r in tables(0) && want(r) ==> r in tables(k)
    requires forall k, r :: r in tables(k) && r !in tables(0) ==> At(r) > to * MICROS
    ensures GainsAhead(tables, if events then EventsWanted(from, Some(to)) else LogsWanted(from, Some(to)))
  {
    var want := if events then EventsWanted(from, Some(to)) else LogsWanted(from, Some(to));
    forall k: nat ensures GainedAhead(tables(0), tables(k), want) {
      NewerIsAhead(tables(0), tables(k), want);
    }
  }

  // ----- an export that misses a row -----

  /** One event a microsecond, newest first, ending in the middle of a millisecond. */
  function Burst(ids: seq<string>): (rows: seq<Record>)
    ensures |rows| == |ids|
    ensures forall i :: 0 <= i < |rows| ==> rows[i] == Event(SecurityEvent(ids[i], None, "burst", Json.Null, 999 - i))
  {
    seq(|ids|, i requires 0 <= i < |ids| => Event(SecurityEvent(ids[i], None, "burst", Json.Null, 999 - i)))
  }

  /** 201 security events of one millisecond: the export leaves one out and does not say it is truncated. */
  lemma ExportCanMissARow(ids: seq<string>, e: Export)
    requires |ids| == 201 && Distinct(ids) && Exported([], Burst(ids), e)
    ensures Descending(Burst(ids)) && UniqueIds(Burst(ids))
    ensures !e.truncated && exists r :: r in Burst(ids) && r !in e.records
  {
    var rows := Burst(ids);
    var none: seq<Record> := [];
    assert Millis(rows[199]) == 0 && At(rows[200]) == 799;
    assert !Beyond(ToCursor(rows[199]), rows[200]);
    assert !PagesShow(rows, EXPORT_PAGE_SIZE, 0);
    assert multiset(none) + multiset(rows) == multiset(rows);
    assert ExportShows(none) && Capped(rows) == rows;
    SmallerOrEqual(multiset(e.records), multiset(rows));
    MissingOne(e.records, rows);
  }

  lemma SmallerOrEqual(a: multiset<Record>, b: multiset<Record>)
    requires a <= b
    ensures |a| <= |b|
  {
    assert b == a + (b - a);
  }

  lemma MissingOne(records: seq<Record>, rows: seq<Record>)
    requires Descending(rows) && multiset(records) <= multiset(rows) && multiset(records) != multiset(rows)
    ensures exists r :: r in rows && r !in records
  {
    if forall r :: r in rows ==> r in records {
      forall r ensures multiset(rows)[r] <= multiset(records)[r] {
        AtMostOnce(rows, r);
        assert r in rows ==> r in multiset(records);
      }
    }
  }
}

/**
 Runs of appends: the chain any mix of calls leaves, what each time range selects, and exactly when it all verifies.
 */
module AuditRuns {
  import opened Prelude
  import opened Json
  import opened Canonical
  import opened AuditChain

  datatype Call = Call(entry: NewEntry, id: string, at: int)

  predicate IsChained(c: Call) {
    ShouldUseHashChain(c.entry.action)
  }

  function RunCalls(env: Env, calls: seq<Call>): seq<Row> {
    if |calls| == 0 then []
    else
      var last := calls[|calls| - 1];
      var table := RunCalls(env, calls[..|calls| - 1]);
      table + [NewRow(env, table, last.entry, last.id, last.at)]
  }

  function ToChain(): Call -> bool {
    (c: Call) => IsChained(c)
  }

  /** The calls of a run that append to the chain, in the order they came. */
  function ChainedCalls(calls: seq<Call>): seq<Call> {
    Filter(ToChain(), calls)
  }

  predicate CallLess(a: Call, b: Call) {
    a.at < b.at || (a.at == b.at && TextLess(a.id, b.id))
  }

  /**
   Chained appends get strictly increasing (createdAt, id). Reading the clock under the chain lock keeps the times from
   decreasing, but ids are random: of two appends in one millisecond the second id may come first.
   */
  predicate KeysIncrease(calls: seq<Call>) {
    var cs := ChainedCalls(calls);
    forall i, j :: 0 <= i < j < |cs| ==> CallLess(cs[i], cs[j])
  }

  predicate DistinctIds(calls: seq<Call>) {
    var cs := ChainedCalls(calls);
    forall i, j :: 0 <= i < j < |cs| ==> cs[i].id != cs[j].id
  }

  /** An object with distinct property names that the JSON column stores faithfully, its entries in any order. */
  ghost predicate GoodPayload(env: Env, payload: Value) {
    payload.Obj? && WellFormed(payload) && StoredAs(payload, env.jsonb(payload))
  }

  ghost predicate GoodPayloads(env: Env, calls: seq<Call>) {
    forall c :: c in ChainedCalls(calls) ==> GoodPayload(env, c.entry.payload)
  }

  /** What a payload must be to hash the same after it was stored: no `undefined`, and tied keys come back in order. */
  ghost predicate Intact(env: Env, payload: Value) {
    NoUndefined(payload) && KeepsTies(env.le, payload, env.jsonb(payload))
  }

  ghost predicate AllIntact(env: Env, calls: seq<Call>) {
    forall c :: c in ChainedCalls(calls) ==> Intact(env, c.entry.payload)
  }

  lemma SlicesOf(p: Row -> bool, rows: seq<Row>, a: nat, b: nat)
    requires a <= b <= |rows|
    requires forall i :: 0 <= i < |rows| ==> (p(rows[i]) <==> a <= i < b)
    ensures forall r :: r in rows[a..b] ==> p(r)
    ensures forall r :: r in rows[..a] || r in rows[b..] ==> !p(r)
  {
    assert forall i :: 0 <= i < b - a ==> rows[a..b][i] == rows[a + i];
    assert forall i :: 0 <= i < |rows| - b ==> rows[b..][i] == rows[b + i];
  }

  lemma FilterSlice(p: Row -> bool, rows: seq<Row>, a: nat, b: nat)
    requires a <= b <= |rows|
    requires forall i :: 0 <= i < |rows| ==> (p(rows[i]) <==> a <= i < b)
    ensures Filter(p, rows) == rows[a..b]
  {
    hide Filter;
    SlicesOf(p, rows, a, b);
    FilterNone(p, rows[..a]);
    FilterAll(p, rows[a..b]);
    FilterNone(p, rows[b..]);
    FilterConcat(p, rows[..a], rows[a..b]);
    FilterConcat(p, rows[..b], rows[b..]);
    assert rows == rows[..b] + rows[b..] && rows[..b] == rows[..a] + rows[a..b];
  }

  predicate TimeOrdered(rows: seq<Row>) {
    forall i, j :: 0 <= i < j < |rows| ==> rows[i].createdAt <= rows[j].createdAt
  }

  lemma {:induction false} RangeBounds(rows: seq<Row>, from: Option<int>, to: Option<int>) returns (a: nat, b: nat)
    requires TimeOrdered(rows)
    ensures a <= b <= |rows|
    ensures forall i :: 0 <= i < |rows| ==> (InRange(from, to, rows[i]) <==> a <= i < b)
  {
    if |rows| == 0 {
      a, b := 0, 0;
    } else {
      var n := |rows| - 1;
      a, b := RangeBounds(rows[..n], from, to);
      assert forall i :: 0 <= i < n ==> rows[..n][i] == rows[i];
      if InRange(from, to, rows[n]) {
        a := if a == b then n else a;
        b := n + 1;
        forall i | a <= i < n ensures InRange(from, to, rows[i]) {
          assert InRange(from, to, rows[a]) && rows[a].createdAt <= rows[i].createdAt <= rows[n].createdAt;
        }
      }
    }
  }

  /** The rows from a up to b are those stamped from `from` to `to`, both ends included. */
  ghost predicate SlicedAt(rows: seq<Row>, from: Option<int>, to: Option<int>, a: nat, b: nat) {
    forall i, r :: 0 <= i < |rows| && rows[i] == r ==>
      (a <= i < b <==> (from.None? || from.value <= r.createdAt) && (to.None? || r.createdAt <= to.value))
  }

  lemma BoundsSlice(rows: seq<Row>, from: Option<int>, to: Option<int>, a: nat, b: nat)
    requires forall i :: 0 <= i < |rows| ==> (InRange(from, to, rows[i]) <==> a <= i < b)
    ensures SlicedAt(rows, from, to, a, b)
  {
    forall i, r | 0 <= i < |rows| && rows[i] == r
      ensures a <= i < b <==> (from.None? || from.value <= r.createdAt) && (to.None? || r.createdAt <= to.value)
    {
      assert InRange(from, to, rows[i]) <==> a <= i < b;
    }
  }

  /** In time order the rows of a time range are consecutive. */
  lemma RangeIsSlice(rows: seq<Row>, from: Option<int>, to: Option<int>) returns (a: nat, b: nat)
    requires TimeOrdered(rows)
    ensures a <= b <= |rows|
    ensures Filter(Within(from, to), rows) == rows[a..b]
    ensures SlicedAt(rows, from, to, a, b)
  {
    a, b := RangeBounds(rows, from, to);
    BoundsSlice(rows, from, to, a, b);
    FilterSlice(Within(from, to), rows, a, b);
  }

  /** Only the payload decides whether a row's entry holds an `undefined` and whether another keeps its tied keys. */
  lemma PayloadDecides(env: Env, r: Row, s: Row)
    requires s == r.(payload := s.payload)
    ensures NoUndefined(Obj(EntryMembers(env, r))) <==> NoUndefined(r.payload)
    ensures KeepsTies(env.le, Obj(EntryMembers(env, r)), Obj(EntryMembers(env, s))) <==>
            KeepsTies(env.le, r.payload, s.payload)
  {
    var p, q := EntryMembers(env, r), EntryMembers(env, s);
    MembersOf(p);
    assert p[6].value == r.payload && q[6].value == s.payload;
    assert forall i :: 0 <= i < 8 && i != 6 ==> NoUndefined(p[i].value) && KeepsTies(env.le, p[i].value, q[i].value);
    EntryKeysDistinct(env, r);
    assert Keys(p) == Keys(q);
    KeepsTiesMemberwise(env.le, p, q);
  }

  /** A row's stored hash matches its stored fields exactly when its payload came through storage intact. */
  lemma StoredRowChecks(env: Env, r: Row)
    requires Injective(env.sha256) && TotalPreorder(env.le) && GoodPayload(env, r.payload)
    ensures EntryHash(env, r.(payload := env.jsonb(r.payload))) == EntryHash(env, r) <==> Intact(env, r.payload)
  {
    var s := r.(payload := env.jsonb(r.payload));
    EntryIsJson(env, r);
    EntryStoredAs(env, r, s);
    PayloadDecides(env, r, s);
    hide EntryMembers, Canonicalize, KeepsTies, NoUndefined, WellFormed;
    StorageKeepsText(env.le, Obj(EntryMembers(env, r)), Obj(EntryMembers(env, s)));
  }

  lemma EntryStoredAs(env: Env, r: Row, s: Row)
    requires StoredAs(r.payload, s.payload) && s == r.(payload := s.payload)
    requires WellFormed(r.payload) && !r.payload.Undefined?
    ensures StoredAs(Obj(EntryMembers(env, r)), Obj(EntryMembers(env, s)))
  {
    var p, q := EntryMembers(env, r), EntryMembers(env, s);
    EntryIsJson(env, s);
    EntryKeysDistinct(env, r);
    EntryValuesStored(env, r, s);
    assert Keys(p) == Keys(q);
    hide EntryMembers, IsJson, WellFormed, Distinct;
    StoredMemberwise(p, q);
  }

  lemma EntryValuesStored(env: Env, r: Row, s: Row)
    requires Denote(s.payload) == Denote(Drop(r.payload)) && s == r.(payload := s.payload) && !r.payload.Undefined?
    ensures var p, q := EntryMembers(env, r), EntryMembers(env, s);
            forall i :: 0 <= i < |p| ==> !p[i].value.Undefined? && Denote(q[i].value) == Denote(Drop(p[i].value))
  {
    var p, q := EntryMembers(env, r), EntryMembers(env, s);
    assert p[6].value == r.payload && q[6].value == s.payload;
    assert forall i :: 0 <= i < 8 && i != 6 ==> q[i] == p[i] && (p[i].value.Str? || p[i].value.Null?);
  }

  /** The chained rows a run leaves, in the order they were appended. */
  function ChainOf(table: seq<Row>): seq<Row> {
    Filter(Chained(), table)
  }

  ghost predicate Premises(env: Env) {
    Injective(env.sha256) && Injective(env.iso) && TotalPreorder(env.le)
  }

  /** The row a chained call appends: its fields, the payload as stored, hashed with the payload as passed. */
  predicate CameFrom(env: Env, c: Call, r: Row) {
    && r.id == c.id
    && r.createdAt == c.at
    && r.actorUserId == c.entry.actorUserId
    && r.action == c.entry.action
    && r.resourceType == c.entry.resourceType
    && r.resourceId == c.entry.resourceId
    && r.payload == env.jsonb(c.entry.payload)
    && r.integrityVersion == INTEGRITY_VERSION_CHAINED
    && r.entryHash == Some(EntryHash(env, r.(payload := c.entry.payload)))
  }

  /** Row i carries the hash of the greatest row there was when it was appended. */
  predicate AppendedAt(chain: seq<Row>, i: nat)
    requires i < |chain|
  {
    chain[i].prevHash == LatestHash(chain[..i])
  }

  /**
   The chain holds one row for each chained call, in the order of the calls, each appended onto the rows before it.
   */
  predicate Appended(env: Env, calls: seq<Call>, chain: seq<Row>) {
    var cs := ChainedCalls(calls);
    |chain| == |cs| && forall i :: 0 <= i < |chain| ==> CameFrom(env, cs[i], chain[i]) && AppendedAt(chain, i)
  }

  lemma AppendedGrows(env: Env, calls: seq<Call>, last: Call, chain: seq<Row>, row: Row)
    requires Appended(env, calls, chain) && IsChained(last)
    requires CameFrom(env, last, row) && row.prevHash == LatestHash(chain)
    ensures Appended(env, calls + [last], chain + [row])
  {
    FilterAppend(ToChain(), calls, last);
    var grown := chain + [row];
    hide CameFrom, LatestHash;
    forall i | 0 <= i < |grown| ensures AppendedAt(grown, i) {
      assert i < |chain| ==> AppendedAt(chain, i);
      assert grown[..i] == chain[..i];
      assert chain[..|chain|] == chain;
    }
  }

  lemma RunSnoc(env: Env, before: seq<Call>, last: Call)
    ensures RunCalls(env, before + [last]) ==
            RunCalls(env, before) + [NewRow(env, RunCalls(env, before), last.entry, last.id, last.at)]
  {
    var calls := before + [last];
    assert calls[..|calls| - 1] == before && calls[|calls| - 1] == last;
  }

  /** What a call appends to the chain: nothing, or a row that came from it and carries the last hash. */
  lemma ChainSnoc(env: Env, table: seq<Row>, c: Call)
    ensures var row := NewRow(env, table, c.entry, c.id, c.at);
            && ChainOf(table + [row]) == (if IsChained(c) then ChainOf(table) + [row] else ChainOf(table))
            && (IsChained(c) ==> CameFrom(env, c, row) && row.prevHash == LatestHash(ChainOf(table)))
  {
    var row := NewRow(env, table, c.entry, c.id, c.at);
    FilterAppend(Chained(), table, row);
    if IsChained(c) {
      var hashed := row.(payload := c.entry.payload);
      assert EntryMembers(env, hashed) == EntryMembers(env, hashed.(entryHash := None));
    }
  }

  /**
   After any run of appends the chain holds, in order, one row for each chained call, with the call's fields and the
   hash that was the latest then.
   */
  lemma {:induction false} RunChain(env: Env, calls: seq<Call>)
    ensures Appended(env, calls, ChainOf(RunCalls(env, calls)))
  {
    if |calls| != 0 {
      hide RunCalls, NewRow, ChainOf, CameFrom, LatestHash, Appended;
      var before, last := calls[..|calls| - 1], calls[|calls| - 1];
      assert calls == before + [last];
      RunSnoc(env, before, last);
      RunChain(env, before);
      var table := RunCalls(env, before);
      ChainSnoc(env, table, last);
      if IsChained(last) {
        AppendedGrows(env, before, last, ChainOf(table), NewRow(env, table, last.entry, last.id, last.at));
      } else {
        FilterAppend(ToChain(), before, last);
        assert ChainedCalls(calls) == ChainedCalls(before);
      }
    }
  }

  // ----- the order of appends and the order of keys -----

  ghost predicate DistinctRowIds(chain: seq<Row>) {
    forall i, j :: 0 <= i < j < |chain| ==> chain[i].id != chain[j].id
  }

  /** The chain is in key order exactly when the chained calls' keys increase. */
  lemma RunAscends(env: Env, calls: seq<Call>)
    ensures Ascending(ChainOf(RunCalls(env, calls))) <==> KeysIncrease(calls)
    ensures DistinctRowIds(ChainOf(RunCalls(env, calls))) <==> DistinctIds(calls)
  {
    RunChain(env, calls);
    hide RunCalls, ChainOf, ChainedCalls;
    var cs, chain := ChainedCalls(calls), ChainOf(RunCalls(env, calls));
    forall i, j | 0 <= i < j < |chain| ensures KeyLess(chain[i], chain[j]) <==> CallLess(cs[i], cs[j]) {
      assert CameFrom(env, cs[i], chain[i]) && CameFrom(env, cs[j], chain[j]);
    }
  }

  lemma RunStoresJson(env: Env, calls: seq<Call>)
    requires GoodPayloads(env, calls)
    ensures JsonRows(ChainOf(RunCalls(env, calls)))
  {
    RunChain(env, calls);
    hide RunCalls, ChainOf, ChainedCalls;
    var cs, chain := ChainedCalls(calls), ChainOf(RunCalls(env, calls));
    forall i | 0 <= i < |chain| ensures IsJson(chain[i].payload) {
      assert cs[i] in cs && CameFrom(env, cs[i], chain[i]);
    }
  }

  predicate HashChecks(env: Env, r: Row) {
    r.entryHash == Some(EntryHash(env, r))
  }

  ghost predicate AllHashesCheck(env: Env, rows: seq<Row>) {
    forall r :: r in rows ==> HashChecks(env, r)
  }

  lemma RowChecks(env: Env, c: Call, r: Row)
    requires Premises(env) && GoodPayload(env, c.entry.payload) && CameFrom(env, c, r)
    ensures HashChecks(env, r) <==> Intact(env, c.entry.payload)
  {
    StoredRowChecks(env, r.(payload := c.entry.payload));
  }

  /** Every row's own hash checks exactly when every chained payload came through storage intact. */
  lemma RunHashes(env: Env, calls: seq<Call>)
    requires Premises(env) && GoodPayloads(env, calls)
    ensures AllHashesCheck(env, ChainOf(RunCalls(env, calls))) <==> AllIntact(env, calls)
  {
    RunChain(env, calls);
    hide RunCalls, ChainOf, ChainedCalls, CameFrom, HashChecks, GoodPayload, Intact, Premises;
    var cs, chain := ChainedCalls(calls), ChainOf(RunCalls(env, calls));
    forall i | 0 <= i < |chain| ensures HashChecks(env, chain[i]) <==> Intact(env, cs[i].entry.payload) {
      assert cs[i] in cs && CameFrom(env, cs[i], chain[i]);
      RowChecks(env, cs[i], chain[i]);
    }
    if AllHashesCheck(env, chain) {
      forall c | c in cs ensures Intact(env, c.entry.payload) {
        var i :| 0 <= i < |cs| && cs[i] == c;
        assert chain[i] in chain;
      }
    }
    if AllIntact(env, calls) {
      forall r | r in chain ensures HashChecks(env, r) {
        var i :| 0 <= i < |chain| && chain[i] == r;
        assert cs[i] in cs;
      }
    }
  }

  lemma BeforeIsPrefix(chain: seq<Row>, a: nat)
    requires Ascending(chain) && a < |chain|
    ensures Filter(Before(chain[a]), chain) == chain[..a]
  {
    forall i | 0 <= i < |chain| ensures Before(chain[a])(chain[i]) <==> 0 <= i < a {
      KeyOrder(chain[a], chain[i], chain[a]);
    }
    FilterSlice(Before(chain[a]), chain, 0, a);
  }

  lemma HashBefore(table: seq<Row>, a: nat)
    requires Ascending(ChainOf(table)) && a < |ChainOf(table)|
    ensures PreviousHash(table, ChainOf(table)[a]) == if a == 0 then None else ChainOf(table)[a - 1].entryHash
  {
    FilterTwice(Chained(), Before(ChainOf(table)[a]), table);
    BeforeIsPrefix(ChainOf(table), a);
    OrderAscOfAscending(ChainOf(table)[..a]);
  }

  /** A slice of an ascending chain is in order already. */
  lemma SliceAscends(chain: seq<Row>, a: nat, b: nat)
    requires Ascending(chain) && a <= b <= |chain|
    ensures TimeOrdered(chain) && OrderAsc(chain[a..b]) == chain[a..b]
  {
    OrderAscOfAscending(chain[a..b]);
  }

  lemma RangeSorted(table: seq<Row>, from: Option<int>, to: Option<int>)
    ensures Range(table, from, to) == OrderAsc(Filter(Within(from, to), ChainOf(table)))
  {
    FilterTwice(Chained(), Within(from, to), table);
  }

  /** A time range over an ascending chain selects the consecutive rows stamped from `from` to `to`. */
  lemma RangeOfChain(table: seq<Row>, from: Option<int>, to: Option<int>) returns (a: nat, b: nat)
    requires Ascending(ChainOf(table))
    ensures a <= b <= |ChainOf(table)|
    ensures Range(table, from, to) == ChainOf(table)[a..b]
    ensures SlicedAt(ChainOf(table), from, to, a, b)
  {
    hide ChainOf, Range, Ascending, TimeOrdered;
    var chain := ChainOf(table);
    SliceAscends(chain, 0, 0);
    a, b := RangeIsSlice(chain, from, to);
    SliceAscends(chain, a, b);
    RangeSorted(table, from, to);
  }

  lemma LatestOfPrefix(rows: seq<Row>, i: nat)
    requires Ascending(rows) && i <= |rows|
    ensures LatestHash(rows[..i]) == if i == 0 then None else rows[i - 1].entryHash
  {
    OrderAscOfAscending(rows[..i]);
  }

  /** In an ascending chain each row carries the hash of the row before it. */
  lemma Links(chain: seq<Row>, i: nat)
    requires Ascending(chain) && i < |chain| && AppendedAt(chain, i)
    ensures chain[i].prevHash == if i == 0 then None else chain[i - 1].entryHash
  {
    LatestOfPrefix(chain, i);
  }

  lemma LinkOfChain(env: Env, chain: seq<Row>, prev: Option<string>, a: nat, b: nat, i: nat)
    requires Ascending(chain) && a <= b <= |chain| && i < b - a
    requires AppendedAt(chain, a + i) && HashChecks(env, chain[a + i])
    requires prev == if a == 0 then None else chain[a - 1].entryHash
    ensures RowLinked(env, prev, chain[a..b], i)
  {
    hide EntryHash, Ascending, AppendedAt;
    Links(chain, a + i);
    assert chain[a..b][i] == chain[a + i] && (i > 0 ==> chain[a..b][i - 1] == chain[a + i - 1]);
  }

  lemma GoodChainVerifies(env: Env, table: seq<Row>, from: Option<int>, to: Option<int>)
    requires var chain := ChainOf(table);
             Ascending(chain) && AllHashesCheck(env, chain) && forall i :: 0 <= i < |chain| ==> AppendedAt(chain, i)
    ensures Verifies(env, table, from, to)
  {
    hide SlicedAt, EntryHash, Ascending, AppendedAt, ChainOf, Range, PreviousHash, RowLinked, HashChecks;
    var chain := ChainOf(table);
    var a, b := RangeOfChain(table, from, to);
    if a < b {
      HashBefore(table, a);
      assert chain[a..b][0] == chain[a];
      forall i | 0 <= i < b - a ensures RowLinked(env, PreviousHash(table, chain[a]), chain[a..b], i) {
        assert chain[a + i] in chain;
        LinkOfChain(env, chain, PreviousHash(table, chain[a]), a, b, i);
      }
    }
  }

  // ----- a chain that verifies was appended in key order -----

  lemma {:induction false} InsertAscAscends(r: Row, rows: seq<Row>)
    requires Ascending(rows) && forall x :: x in rows ==> x.id != r.id
    ensures Ascending(InsertAsc(r, rows))
  {
    if |rows| != 0 {
      var t := rows[1..];
      assert forall i :: 0 <= i < |t| ==> t[i] == rows[i + 1];
      assert rows == [rows[0]] + t;
      if KeyLess(rows[0], r) {
        InsertAscAscends(r, t);
        InsertAscKeeps(r, t);
        var u := InsertAsc(r, t);
        forall i | 0 <= i < |u| ensures KeyLess(rows[0], u[i]) {
          assert u[i] in u;
        }
      } else {
        KeyCompare(r, rows[0]);
        forall i | 0 <= i < |rows| ensures KeyLess(r, rows[i]) {
          KeyOrder(r, rows[0], rows[i]);
        }
      }
    }
  }

  lemma {:induction false} OrderAscAscends(rows: seq<Row>)
    requires DistinctRowIds(rows)
    ensures Ascending(OrderAsc(rows))
  {
    if |rows| != 0 {
      var t := rows[1..];
      assert forall i :: 0 <= i < |t| ==> t[i] == rows[i + 1];
      OrderAscAscends(t);
      OrderAscKeeps(t);
      forall x | x in OrderAsc(t) ensures x.id != rows[0].id {
        assert x in t;
        var i :| 0 <= i < |t| && t[i] == x;
        assert rows[i + 1] == x;
      }
      InsertAscAscends(rows[0], OrderAsc(t));
    }
  }

  lemma SortedRange(table: seq<Row>)
    ensures Range(table, None, None) == OrderAsc(ChainOf(table))
  {
    FilterTwice(Chained(), Within(None, None), table);
    FilterAll(Within(None, None), ChainOf(table));
  }

  lemma Hashed(env: Env, prev: Option<string>, rows: seq<Row>, i: nat)
    requires Linked(env, prev, rows) && i < |rows|
    ensures rows[i].entryHash.Some?
  {
    assert RowLinked(env, prev, rows, i);
  }

  /** In a linked chain the hash a row carries tells its place. */
  lemma LinkTellsPlace(env: Env, sorted: seq<Row>, i: nat, j: nat)
    requires Injective(env.sha256) && Injective(env.iso) && JsonRows(sorted) && Linked(env, None, sorted)
    requires i <= j < |sorted| && sorted[j].prevHash == if i == 0 then None else sorted[i - 1].entryHash
    ensures i == j
  {
    hide EntryHash, IsJson, Injective;
    if j > 0 {
      Hashed(env, None, sorted, j - 1);
    }
    assert RowLinked(env, None, sorted, j);
    if i > 0 {
      SharedHashSharedPast(env, sorted, sorted, i - 1, j - 1);
    }
  }

  /** The row appended next is the next in key order: it carries the hash of the row before it in both orders. */
  lemma NextInBoth(env: Env, chain: seq<Row>, sorted: seq<Row>, i: nat)
    requires Injective(env.sha256) && Injective(env.iso) && JsonRows(sorted) && Linked(env, None, sorted) &&
             Ascending(sorted)
    requires i < |chain| == |sorted| && chain[..i] == sorted[..i] && AppendedAt(chain, i)
    requires chain[i] in sorted && chain[i] !in chain[..i]
    ensures chain[i] == sorted[i]
  {
    LatestOfPrefix(sorted, i);
    hide LatestHash, Ascending, Linked, JsonRows, Injective;
    var j :| 0 <= j < |sorted| && sorted[j] == chain[i];
    assert forall k :: 0 <= k < i ==> sorted[k] in sorted[..i];
    LinkTellsPlace(env, sorted, i, j);
  }

  /** Every row of the chain is in the sorted rows, and carries the hash that was the latest when it was appended. */
  ghost predicate AppendedFrom(chain: seq<Row>, sorted: seq<Row>) {
    forall k :: 0 <= k < |chain| ==> AppendedAt(chain, k) && chain[k] in sorted
  }

  lemma NotBefore(chain: seq<Row>, sorted: seq<Row>, i: nat)
    requires DistinctRowIds(chain) && AppendedFrom(chain, sorted) && i < |chain|
    ensures chain[i] !in chain[..i] && AppendedAt(chain, i) && chain[i] in sorted
  {
  }

  lemma OneMore(chain: seq<Row>, sorted: seq<Row>, i: nat)
    requires i < |chain| == |sorted| && chain[..i] == sorted[..i] && chain[i] == sorted[i]
    ensures chain[..i + 1] == sorted[..i + 1]
  {
    assert chain[..i + 1] == chain[..i] + [chain[i]] && sorted[..i + 1] == sorted[..i] + [sorted[i]];
  }

  lemma {:induction false} SameOrder(env: Env, chain: seq<Row>, sorted: seq<Row>, i: nat)
    requires Injective(env.sha256) && Injective(env.iso) && JsonRows(sorted) && Linked(env, None, sorted) &&
             Ascending(sorted)
    requires i <= |chain| == |sorted| && DistinctRowIds(chain) && AppendedFrom(chain, sorted)
    ensures chain[..i] == sorted[..i]
  {
    if i > 0 {
      hide *;
      SameOrder(env, chain, sorted, i - 1);
      NotBefore(chain, sorted, i - 1);
      NextInBoth(env, chain, sorted, i - 1);
      OneMore(chain, sorted, i - 1);
    }
  }

  lemma VerifiedIsAscending(env: Env, table: seq<Row>)
    requires Injective(env.sha256) && Injective(env.iso) && Verifies(env, table, None, None)
    requires var chain := ChainOf(table);
             JsonRows(chain) && DistinctRowIds(chain) && forall i :: 0 <= i < |chain| ==> AppendedAt(chain, i)
    ensures Ascending(ChainOf(table)) && AllHashesCheck(env, ChainOf(table))
  {
    var chain, sorted := ChainOf(table), Range(table, None, None);
    SortedRange(table);
    OrderAscKeeps(chain);
    OrderAscAscends(chain);
    if |chain| > 0 {
      NothingBeforeFirst(table);
      forall i | 0 <= i < |sorted| ensures IsJson(sorted[i].payload) {
        assert sorted[i] in chain;
      }
      SameOrder(env, chain, sorted, |chain|);
      assert chain[..|chain|] == chain && sorted[..|sorted|] == sorted;
      forall r | r in chain ensures HashChecks(env, r) {
        var i :| 0 <= i < |sorted| && sorted[i] == r;
        assert RowLinked(env, None, sorted, i);
      }
    }
  }

  /**
   Append completeness: after a run mixing chained and other actions, the verifier accepts the whole table, and with it
   every time range, including ranges that begin mid-chain, exactly when the chained keys increased and every chained
   payload came through storage intact.
   */
  lemma AppendCompleteness(env: Env, calls: seq<Call>)
    requires Premises(env) && GoodPayloads(env, calls) && DistinctIds(calls)
    ensures Verifies(env, RunCalls(env, calls), None, None) <==> AllIntact(env, calls) && KeysIncrease(calls)
    ensures (forall from, to :: Verifies(env, RunCalls(env, calls), from, to)) <==>
            AllIntact(env, calls) && KeysIncrease(calls)
  {
    hide RunCalls, Verifies, KeysIncrease, AllIntact, DistinctIds, GoodPayloads, ChainOf, ChainedCalls, CameFrom;
    var table := RunCalls(env, calls);
    RunChain(env, calls);
    RunHashes(env, calls);
    RunAscends(env, calls);
    RunStoresJson(env, calls);
    if AllIntact(env, calls) && KeysIncrease(calls) {
      forall from, to ensures Verifies(env, table, from, to) {
        GoodChainVerifies(env, table, from, to);
      }
    }
    if Verifies(env, table, None, None) {
      VerifiedIsAscending(env, table);
    }
  }

  /** Where the collation separates its keys, a payload is intact exactly when it holds no `undefined`. */
  lemma SeparatedIsIntact(env: Env, payload: Value)
    requires GoodPayload(env, payload) && Separates(env.le, payload)
    ensures Intact(env, payload) <==> NoUndefined(payload)
  {
    if NoUndefined(payload) {
      DropNothing(payload);
      SeparatedKeepsTies(env.le, payload, env.jsonb(payload));
    }
  }

  /** Two chained appends in one millisecond, the second with the smaller id: the verifier reports the chain broken. */
  lemma DecreasingIdsBreakTheChain(env: Env, a: Call, b: Call)
    requires Premises(env) && GoodPayloads(env, [a, b]) && IsChained(a) && IsChained(b)
    requires a.at == b.at && TextLess(b.id, a.id)
    ensures !Verifies(env, RunCalls(env, [a, b]), None, None)
  {
    TextLessIrreflexive(a.id);
    if TextLess(a.id, b.id) {
      TextLessTransitive(a.id, b.id, a.id);
    }
    FilterAll(ToChain(), [a, b]);
    assert !CallLess(ChainedCalls([a, b])[0], ChainedCalls([a, b])[1]);
    AppendCompleteness(env, [a, b]);
  }

  /** One chained append with two keys the collation ranks equal, given back in the other order: the chain is broken. */
  lemma SwappedTieBreaksTheChain(env: Env, c: Call, x: Member, y: Member)
    requires Premises(env) && GoodPayloads(env, [c]) && IsChained(c)
    requires c.entry.payload == Obj([x, y]) && Ties(env.le, x.key, y.key)
    requires env.jsonb(c.entry.payload) == Obj([y, x])
    ensures !Verifies(env, RunCalls(env, [c]), None, None)
  {
    FilterAll(ToChain(), [c]);
    var written, stored := [x, y], [y, x];
    assert c in ChainedCalls([c]);
    DistinctKeys(written);
    assert written[0].key != written[1].key;
    assert !Precedes(stored, x.key, y.key);
    assert Ties(env.le, written[0].key, written[1].key) && !KeepsPairs(env.le, written, stored);
    AppendCompleteness(env, [c]);
  }
}

/** One-time recovery codes: the rows and their interleaved use, the generator, and the normaliser. */
module MfaRecovery {
  import opened Prelude

  type UserId = string
  type CallId = nat

  datatype Code = Code(userId: UserId, batchId: string, lookupHash: string, codeHash: string,
                       usedAt: Option<int>, revokedAt: Option<int>)

  datatype Record = Record(lookupHash: string, codeHash: string)

  // ----- single statements on mfa_recovery_codes; a row's id is its position -----

  predicate Active(c: Code) {
    c.usedAt.None? && c.revokedAt.None?
  }

  function RevokedFor(codes: seq<Code>, user: UserId, now: int): (r: seq<Code>)
    ensures |r| == |codes|
    ensures forall i :: 0 <= i < |r| ==>
              r[i] == if codes[i].userId == user && Active(codes[i])
                      then codes[i].(revokedAt := Some(now)) else codes[i]
  {
    seq(|codes|, i requires 0 <= i < |codes| =>
      if codes[i].userId == user && Active(codes[i]) then codes[i].(revokedAt := Some(now)) else codes[i])
  }

  function Rows(user: UserId, batchId: string, records: seq<Record>): (r: seq<Code>)
    ensures |r| == |records|
    ensures forall i :: 0 <= i < |r| ==>
              r[i] == Code(user, batchId, records[i].lookupHash, records[i].codeHash, None, None)
  {
    seq(|records|, i requires 0 <= i < |records| =>
      Code(user, batchId, records[i].lookupHash, records[i].codeHash, None, None))
  }

  /** The unique index on lookup_hash lets these records in. */
  predicate Insertable(codes: seq<Code>, records: seq<Record>) {
    && (forall i, j :: 0 <= i < j < |records| ==> records[i].lookupHash != records[j].lookupHash)
    && (forall i, j :: 0 <= i < |codes| && 0 <= j < |records| ==> codes[i].lookupHash != records[j].lookupHash)
  }

  lemma InsertableExactly(codes: seq<Code>, records: seq<Record>)
    ensures Insertable(codes, records) <==>
            && (forall i, j :: 0 <= i < |records| && 0 <= j < |records| && i != j ==>
                  records[i].lookupHash != records[j].lookupHash)
            && (forall c, r :: c in codes && r in records ==> c.lookupHash != r.lookupHash)
  {
  }

  /** One transaction: revoke the user's active codes and insert the batch, or nothing when the index objects. */
  function WithBatch(codes: seq<Code>, user: UserId, batchId: string, records: seq<Record>, now: int): seq<Code> {
    if Insertable(codes, records) then RevokedFor(codes, user, now) + Rows(user, batchId, records) else codes
  }

  predicate CanMark(codes: seq<Code>, id: nat) {
    id < |codes| && Active(codes[id])
  }

  function Marked(codes: seq<Code>, id: nat, now: int): seq<Code> {
    if CanMark(codes, id) then codes[id := codes[id].(usedAt := Some(now))] else codes
  }

  ghost predicate Finds(codes: seq<Code>, h: string, found: Option<nat>) {
    match found
    case Some(id) => id < |codes| && codes[id].lookupHash == h && Active(codes[id])
    case None => forall i :: 0 <= i < |codes| ==> !(codes[i].lookupHash == h && Active(codes[i]))
  }

  function CountActive(codes: seq<Code>, user: UserId): nat {
    if |codes| == 0 then 0
    else CountActive(codes[..|codes| - 1], user) +
         if codes[|codes| - 1].userId == user && Active(codes[|codes| - 1]) then 1 else 0
  }

  class MfaRecoveryRepository {
    var codes: seq<Code>

    constructor ()
      ensures codes == []
    {
      codes := [];
    }

    method RevokeActiveByUserId(user: UserId, now: int)
      modifies this
      ensures codes == RevokedFor(old(codes), user, now)
    {
      codes := RevokedFor(codes, user, now);
    }

    method CreateBatch(user: UserId, batchId: string, records: seq<Record>, now: int) returns (ok: bool)
      modifies this
      ensures ok == Insertable(old(codes), records)
      ensures ok <==>
                && (forall i, j :: 0 <= i < |records| && 0 <= j < |records| && i != j ==>
                      records[i].lookupHash != records[j].lookupHash)
                && (forall c, r :: c in old(codes) && r in records ==> c.lookupHash != r.lookupHash)
      ensures !ok ==> codes == old(codes)
      ensures ok ==> |codes| == |old(codes)| + |records|
      ensures ok ==> forall i :: 0 <= i < |old(codes)| ==>
                var c := old(codes)[i];
                codes[i] == if c.userId == user && c.usedAt == None && c.revokedAt == None
                            then c.(revokedAt := Some(now)) else c
      ensures ok ==> forall i :: 0 <= i < |records| ==>
                codes[|old(codes)| + i] ==
                Code(user, batchId, records[i].lookupHash, records[i].codeHash, None, None)
      ensures codes == WithBatch(old(codes), user, batchId, records, now)
    {
      var before := codes;
      InsertableExactly(codes, records);
      RevokeActiveByUserId(user, now);
      if Insertable(codes, records) {
        codes := codes + Rows(user, batchId, records);
        ok := true;
      } else {
        codes := before;
        ok := false;
      }
      assert forall i :: 0 <= i < |before| ==> RevokedFor(before, user, now)[i].lookupHash == before[i].lookupHash;
    }

    method FindActiveByLookupHash(h: string) returns (found: Option<nat>)
      ensures Finds(codes, h, found)
    {
      var i := 0;
      while i < |codes|
        invariant i <= |codes|
        invariant forall j :: 0 <= j < i ==> !(codes[j].lookupHash == h && Active(codes[j]))
      {
        if codes[i].lookupHash == h && Active(codes[i]) {
          return Some(i);
        }
        i := i + 1;
      }
      found := None;
    }

    method MarkUsed(id: nat, now: int) returns (used: bool)
      modifies this
      ensures used == CanMark(old(codes), id)
      ensures codes == Marked(old(codes), id, now)
    {
      used := id < |codes| && codes[id].usedAt.None? && codes[id].revokedAt.None?;
      if used {
        codes := codes[id := codes[id].(usedAt := Some(now))];
      }
    }

    method CountActiveByUserId(user: UserId) returns (n: nat)
      ensures n == CountActive(codes, user)
    {
      n := 0;
      var i := 0;
      while i < |codes|
        invariant i <= |codes| && n == CountActive(codes[..i], user)
      {
        assert codes[..i + 1][..i] == codes[..i];
        if codes[i].userId == user && Active(codes[i]) {
          n := n + 1;
        }
        i := i + 1;
      }
      assert codes[..i] == codes;
    }
  }

  /** The HMAC of the normalised code, and argon2's verdict on a stored hash and a normalised code. */
  datatype Env = Env(hash: string -> string, verify: (string, string) -> bool)

  /** consumeCode up to its update: the row it will try to mark, or a rejection. */
  method ConsumeLookup(env: Env, repo: MfaRecoveryRepository, user: UserId, typed: string) returns (r: Option<nat>)
    ensures exists found :: Finds(repo.codes, env.hash(NormalizeCode(NormalizeCode(typed))), found) &&
                            r == Checked(env, repo.codes, user, typed, found)
  {
    var normalizedCode := NormalizeCode(typed);
    var found := repo.FindActiveByLookupHash(env.hash(NormalizeCode(normalizedCode)));
    r := None;
    if found.Some? && repo.codes[found.value].userId == user
       && env.verify(repo.codes[found.value].codeHash, normalizedCode) {
      r := found;
    }
  }

  function Checked(env: Env, codes: seq<Code>, user: UserId, typed: string, found: Option<nat>): Option<nat> {
    if found.Some? && found.value < |codes| && codes[found.value].userId == user
       && env.verify(codes[found.value].codeHash, NormalizeCode(typed))
    then found else None
  }

  // ----- codes as text -----

  const ALPHABET := "ABCDEFGHJKLMNPQRSTUVWXYZ23456789"

  /** toUpperCase on ASCII letters; other characters pass. */
  function Upper(c: char): char {
    if 'a' <= c <= 'z' then c - 32 as char else c
  }

  predicate Dropped(c: char) {
    IsSpace(c) || c == '-'
  }

  function NormalizeCode(code: string): (r: string)
    ensures |r| <= |code|
    ensures forall c :: c in r ==> !Dropped(c) && Upper(c) == c
  {
    if |code| == 0 then ""
    else if Dropped(code[0]) then NormalizeCode(code[1..])
    else [Upper(code[0])] + NormalizeCode(code[1..])
  }

  lemma {:induction false} NormalizeAppend(a: string, b: string)
    ensures NormalizeCode(a + b) == NormalizeCode(a) + NormalizeCode(b)
  {
    if |a| == 0 {
      assert a + b == b;
    } else {
      assert (a + b)[1..] == a[1..] + b;
      NormalizeAppend(a[1..], b);
    }
  }

  /** What becomes of each character: whitespace and dashes go, the ASCII small letters become capitals. */
  lemma NormalizedCharacter(c: char)
    ensures NormalizeCode([c]) ==
            if c in SPACES || c == '-' then ""
            else if 97 <= c as int <= 122 then [(c as int - 32) as char]
            else [c]
  {
    SpacesExactly();
    assert [c][1..] == [];
  }

  /** Normalising twice, as consumeCode does, is normalising once. */
  lemma {:induction false} NormalIsNormal(s: string)
    requires forall c :: c in s ==> !Dropped(c) && Upper(c) == c
    ensures NormalizeCode(s) == s
  {
    if |s| != 0 {
      NormalIsNormal(s[1..]);
    }
  }

  predicate CodeText(s: string) {
    forall i :: 0 <= i < |s| ==> s[i] in ALPHABET
  }

  lemma CodeTextIsNormal(s: string)
    requires CodeText(s)
    ensures NormalizeCode(s) == s
  {
    forall c | c in s ensures !Dropped(c) && Upper(c) == c {
      AlphabetIsNormal(c);
    }
    NormalIsNormal(s);
  }

  lemma AlphabetIsNormal(c: char)
    requires c in ALPHABET
    ensures ('A' <= c <= 'Z' || '2' <= c <= '9') && !Dropped(c) && Upper(c) == c
  {
  }

  /** match(/.{1,5}/g) joined by dashes. */
  function Dashed(raw: string): string {
    if |raw| <= 5 then raw else raw[..5] + "-" + Dashed(raw[5..])
  }

  /** normalizeCode undoes the grouping of any text. */
  lemma {:induction false} NormalizeUndoesDashes(raw: string)
    ensures NormalizeCode(Dashed(raw)) == NormalizeCode(raw)
  {
    if |raw| > 5 {
      NormalizeUndoesDashes(raw[5..]);
      NormalizeAppend(raw[..5] + "-", Dashed(raw[5..]));
      NormalizeAppend(raw[..5], "-");
      NormalizeAppend(raw[..5], raw[5..]);
      assert raw == raw[..5] + raw[5..];
    }
  }

  lemma {:induction false} DashedLength(raw: string)
    requires |raw| != 0
    ensures |Dashed(raw)| == |raw| + (|raw| - 1) / 5
  {
    if |raw| > 5 {
      DashedLength(raw[5..]);
    }
  }

  predicate LoginChar(c: char) {
    'A' <= c <= 'Z' || 'a' <= c <= 'z' || '2' <= c <= '9' || c == ' ' || c == '-'
  }

  /** The login schema's test on a text without outer whitespace. */
  predicate LoginAccepts(typed: string) {
    20 <= |typed| <= 32 && forall i :: 0 <= i < |typed| ==> LoginChar(typed[i])
  }

  /** Which texts login takes: 20 to 32 ASCII letters, digits from 2 to 9, spaces and dashes. */
  lemma LoginTakesExactly(typed: string)
    ensures LoginAccepts(typed) <==>
            && 19 < |typed| && |typed| < 33
            && forall c :: c in typed ==>
                 || 65 <= c as int <= 90 || 97 <= c as int <= 122
                 || 50 <= c as int <= 57 || c as int == 32 || c as int == 45
  {
    assert forall c :: c in typed <==> exists i :: 0 <= i < |typed| && typed[i] == c;
    assert forall i :: 0 <= i < |typed| ==> typed[i] in typed;
  }

  lemma {:induction false} DashedIsLoginText(raw: string)
    requires CodeText(raw)
    ensures forall i :: 0 <= i < |Dashed(raw)| ==> LoginChar(Dashed(raw)[i])
  {
    if |raw| <= 5 {
      forall i | 0 <= i < |raw| ensures LoginChar(raw[i]) {
        AlphabetIsNormal(raw[i]);
      }
    } else {
      assert forall i :: 0 <= i < |raw[5..]| ==> raw[5..][i] == raw[i + 5];
      DashedIsLoginText(raw[5..]);
      forall i | 0 <= i < 5 ensures LoginChar(raw[i]) {
        AlphabetIsNormal(raw[i]);
      }
    }
  }

  /**
   Of the code lengths the environment allows, login accepts the code as it is shown up to 27 and refuses it beyond.
   */
  lemma ShownCodeFitsExactly(raw: string)
    requires CodeText(raw) && |raw| >= 20
    ensures LoginAccepts(Dashed(raw)) <==> |raw| <= 27
  {
    hide Dashed, LoginChar, CodeText;
    DashedLength(raw);
    DashedIsLoginText(raw);
  }

  // ----- the generator -----

  predicate ByteKept(b: int) {
    0 <= b < |ALPHABET| * 7
  }

  function Symbol(b: int): char {
    ALPHABET[b % 32]
  }

  function Symbols(bytes: seq<int>): (s: string)
    ensures |s| == |bytes| && CodeText(s)
    ensures forall i :: 0 <= i < |s| ==> s[i] == Symbol(bytes[i])
  {
    seq(|bytes|, i requires 0 <= i < |bytes| => Symbol(bytes[i]))
  }

  /** generatePlainCode over the random bytes it draws: it reads no further than it must. */
  method GeneratePlainCode(bytes: seq<int>, length: nat) returns (code: string, ghost drawn: nat)
    requires forall i :: 0 <= i < |bytes| ==> 0 <= bytes[i] < 256
    requires |Filter(ByteKept, bytes)| >= length
    ensures drawn <= |bytes| && |Filter(ByteKept, bytes[..drawn])| == length
    ensures code == Dashed(Symbols(Filter(ByteKept, bytes)[..length]))
    ensures NormalizeCode(code) == Symbols(Filter(ByteKept, bytes)[..length])
  {
    hide Filter, NormalizeCode, Dashed;
    var raw := "";
    var i := 0;
    while |raw| < length
      invariant i <= |bytes| && |raw| <= length
      invariant raw == Symbols(Filter(ByteKept, bytes[..i]))
      decreases |bytes| - i
    {
      KeptPrefix(bytes, i);
      DrawOne(bytes, i);
      var byte := bytes[i];
      i := i + 1;
      if byte >= |ALPHABET| * 7 {
        continue;
      }
      raw := raw + [ALPHABET[byte % |ALPHABET|]];
    }
    drawn := i;
    KeptPrefix(bytes, i);
    assert Filter(ByteKept, bytes[..i]) == Filter(ByteKept, bytes)[..length];
    code := Dashed(raw);
    NormalizeUndoesDashes(raw);
    CodeTextIsNormal(raw);
  }

  lemma DrawOne(bytes: seq<int>, i: nat)
    requires i < |bytes|
    ensures Symbols(Filter(ByteKept, bytes[..i + 1])) ==
            Symbols(Filter(ByteKept, bytes[..i])) + if ByteKept(bytes[i]) then [Symbol(bytes[i])] else ""
  {
    assert bytes[..i + 1] == bytes[..i] + [bytes[i]];
    FilterAppend(ByteKept, bytes[..i], bytes[i]);
  }

  lemma KeptPrefix(bytes: seq<int>, i: nat)
    requires i <= |bytes|
    ensures Filter(ByteKept, bytes[..i]) <= Filter(ByteKept, bytes)
    ensures i == |bytes| ==> Filter(ByteKept, bytes[..i]) == Filter(ByteKept, bytes)
  {
    hide Filter, ByteKept;
    assert bytes == bytes[..i] + bytes[i..];
    FilterConcat(ByteKept, bytes[..i], bytes[i..]);
    assert i == |bytes| ==> bytes[..i] == bytes;
  }

  lemma AlphabetDistinct(i: nat, j: nat)
    requires i < 32 && j < 32 && ALPHABET[i] == ALPHABET[j]
    ensures i == j
  {
    assert forall k :: 0 <= k < 32 ==> Place(ALPHABET[k]) == k;
  }

  function Place(c: char): int {
    if c <= '9' then c as int - '2' as int + 24
    else if c <= 'H' then c as int - 'A' as int
    else if c <= 'N' then c as int - 'J' as int + 8
    else c as int - 'P' as int + 13
  }

  /** No symbol is favoured: each is drawn by exactly seven of the accepted bytes. */
  lemma EachSymbolSevenBytes(c: char)
    requires c in ALPHABET
    ensures |set b: int | 0 <= b < 256 && ByteKept(b) && Symbol(b) == c| == 7
  {
    var k :| 0 <= k < 32 && ALPHABET[k] == c;
    SevenBytes(k);
    var s := set b: int | 0 <= b < 256 && ByteKept(b) && Symbol(b) == c;
    forall b: int | 0 <= b < 224 ensures Symbol(b) == c <==> b % 32 == k {
      if Symbol(b) == c {
        AlphabetDistinct(b % 32, k);
      }
    }
    assert s == set b: int | 0 <= b < 224 && b % 32 == k;
  }

  lemma SevenBytes(k: nat)
    requires k < 32
    ensures |set b: int | 0 <= b < 224 && b % 32 == k| == 7
  {
    var s := set b: int | 0 <= b < 224 && b % 32 == k;
    assert forall b: int :: 0 <= b < 224 && b % 32 == k ==> b - k == 32 * (b / 32) && 0 <= b / 32 < 7;
    assert s == {k, k + 32, k + 64, k + 96, k + 128, k + 160, k + 192};
  }

  // ----- interleaved use -----

  datatype CallState = Pending(id: nat) | Accepted(id: nat) | Rejected

  /** The user's newest batch: its size, and the codes accepted for the user since it was created. */
  datatype Latest = Latest(batchId: string, size: nat, successes: nat)

  datatype System = System(codes: seq<Code>, calls: map<CallId, CallState>, accepted: seq<nat>,
                           latest: map<UserId, Latest>, batchIds: set<string>)

  datatype Event =
    | CreateBatch(user: UserId, batchId: string, records: seq<Record>, now: int)
    | Lookup(call: CallId, user: UserId, typed: string, found: Option<nat>)
    | MarkUsed(call: CallId, now: int)

  /**
   Batch ids are new, calls are started once and marked after their lookup, and a lookup finds what the query finds.
   */
  ghost predicate Enabled(env: Env, s: System, e: Event) {
    match e
    case CreateBatch(_, batchId, _, _) => batchId !in s.batchIds
    case Lookup(call, _, typed, found) =>
      call !in s.calls && Finds(s.codes, env.hash(NormalizeCode(NormalizeCode(typed))), found)
    case MarkUsed(call, _) => call in s.calls && s.calls[call].Pending?
  }

  /** The calls do not wait for one another: each can begin once at any time, and each under way can mark. */
  lemma CallsProceed(env: Env, s: System, user: UserId, batchId: string, records: seq<Record>, call: CallId,
                     typed: string, now: int)
    ensures batchId !in s.batchIds ==> Enabled(env, s, CreateBatch(user, batchId, records, now))
    ensures call !in s.calls ==> exists found :: Enabled(env, s, Lookup(call, user, typed, found))
    ensures forall found :: Enabled(env, s, Lookup(call, user, typed, found)) ==> call !in s.calls
    ensures call in s.calls && s.calls[call].Pending? ==> Enabled(env, s, MarkUsed(call, now))
  {
    var h := env.hash(NormalizeCode(NormalizeCode(typed)));
    if id: nat :| id < |s.codes| && s.codes[id].lookupHash == h && Active(s.codes[id]) {
      assert call !in s.calls ==> Enabled(env, s, Lookup(call, user, typed, Some(id)));
    } else {
      assert call !in s.calls ==> Enabled(env, s, Lookup(call, user, typed, None));
    }
  }

  function Step(env: Env, s: System, e: Event): System {
    match e
    case CreateBatch(user, batchId, records, now) =>
      if Insertable(s.codes, records) then
        s.(codes := WithBatch(s.codes, user, batchId, records, now),
           latest := s.latest[user := Latest(batchId, |records|, 0)],
           batchIds := s.batchIds + {batchId})
      else s
    case Lookup(call, user, typed, found) =>
      var r := Checked(env, s.codes, user, typed, found);
      s.(calls := s.calls[call := if r.Some? then Pending(r.value) else Rejected])
    case MarkUsed(call, now) =>
      if call !in s.calls || !s.calls[call].Pending? then s else
      var id := s.calls[call].id;
      if !CanMark(s.codes, id) then s.(calls := s.calls[call := Rejected]) else
      var user := s.codes[id].userId;
      s.(codes := Marked(s.codes, id, now),
         calls := s.calls[call := Accepted(id)],
         accepted := s.accepted + [id],
         latest := if user in s.latest
                   then s.latest[user := s.latest[user].(successes := s.latest[user].successes + 1)] else s.latest)
  }

  ghost predicate Run(env: Env, s: System, es: seq<Event>, t: System)
    decreases |es|
  {
    if |es| == 0 then s == t
    else Enabled(env, s, es[0]) && Run(env, Step(env, s, es[0]), es[1..], t)
  }

  predicate Initial(s: System) {
    s == System([], map[], [], map[], {})
  }

  predicate OfLatest(s: System, c: Code) {
    c.userId in s.latest && s.latest[c.userId].batchId == c.batchId
  }

  predicate RowGood(s: System, i: nat)
    requires i < |s.codes|
  {
    var c := s.codes[i];
    && c.batchId in s.batchIds
    && (c.usedAt.Some? <==> i in s.accepted)
    && !(c.usedAt.Some? && c.revokedAt.Some?)
    && (Active(c) <==> c.usedAt.None? && OfLatest(s, c))
  }

  ghost predicate Counted(s: System, user: UserId) {
    if user in s.latest then
      s.latest[user].successes <= s.latest[user].size
      && CountActive(s.codes, user) == s.latest[user].size - s.latest[user].successes
    else CountActive(s.codes, user) == 0
  }

  ghost predicate Inv(s: System) {
    && (forall i :: 0 <= i < |s.codes| ==> RowGood(s, i))
    && Distinct(s.accepted) && (forall k :: 0 <= k < |s.accepted| ==> s.accepted[k] < |s.codes|)
    && (forall user :: user in s.latest ==> s.latest[user].batchId in s.batchIds)
    && (forall user :: Counted(s, user))
  }

  lemma {:induction false} CountRows(codes: seq<Code>, more: seq<Code>, user: UserId)
    requires forall i :: 0 <= i < |more| ==> Active(more[i])
    requires forall i, j :: 0 <= i < |more| && 0 <= j < |more| ==> more[i].userId == more[j].userId
    ensures CountActive(codes + more, user) ==
            CountActive(codes, user) + if |more| != 0 && more[0].userId == user then |more| else 0
    decreases |more|
  {
    if |more| == 0 {
      assert codes + more == codes;
    } else {
      var last := |more| - 1;
      assert (codes + more)[..|codes + more| - 1] == codes + more[..last];
      CountRows(codes, more[..last], user);
    }
  }

  lemma {:induction false} CountRevoked(codes: seq<Code>, user: UserId, other: UserId, now: int)
    ensures CountActive(RevokedFor(codes, user, now), other) == if other == user then 0 else CountActive(codes, other)
  {
    if |codes| != 0 {
      var last := |codes| - 1;
      assert RevokedFor(codes, user, now)[..last] == RevokedFor(codes[..last], user, now);
      CountRevoked(codes[..last], user, other, now);
    }
  }

  lemma {:induction false} CountMarked(codes: seq<Code>, id: nat, user: UserId, now: int)
    requires CanMark(codes, id)
    ensures CountActive(Marked(codes, id, now), user) ==
            CountActive(codes, user) - if codes[id].userId == user then 1 else 0
    decreases |codes|
  {
    var last := |codes| - 1;
    if id == last {
      assert Marked(codes, id, now)[..last] == codes[..last];
    } else {
      assert Marked(codes, id, now)[..last] == Marked(codes[..last], id, now);
      CountMarked(codes[..last], id, user, now);
    }
  }

  lemma BatchKeepsRows(env: Env, s: System, user: UserId, batchId: string, records: seq<Record>, now: int, i: nat)
    requires batchId !in s.batchIds && Insertable(s.codes, records)
    requires forall j :: 0 <= j < |s.codes| ==> RowGood(s, j)
    requires forall j :: j in s.accepted ==> j < |s.codes|
    requires i < |s.codes| + |records|
    ensures RowGood(Step(env, s, CreateBatch(user, batchId, records, now)), i)
  {
    assert i < |s.codes| ==> RowGood(s, i);
  }

  lemma BatchKeepsCount(env: Env, s: System, user: UserId, batchId: string, records: seq<Record>, now: int,
                        other: UserId)
    requires Insertable(s.codes, records) && Counted(s, other)
    ensures Counted(Step(env, s, CreateBatch(user, batchId, records, now)), other)
  {
    CountRows(RevokedFor(s.codes, user, now), Rows(user, batchId, records), other);
    CountRevoked(s.codes, user, other, now);
  }

  lemma BatchKeepsInv(env: Env, s: System, user: UserId, batchId: string, records: seq<Record>, now: int)
    requires Inv(s) && batchId !in s.batchIds && Insertable(s.codes, records)
    ensures Inv(Step(env, s, CreateBatch(user, batchId, records, now)))
  {
    var t := Step(env, s, CreateBatch(user, batchId, records, now));
    forall i | 0 <= i < |t.codes| ensures RowGood(t, i) {
      BatchKeepsRows(env, s, user, batchId, records, now, i);
    }
    forall other ensures Counted(t, other) {
      assert Counted(s, other);
      BatchKeepsCount(env, s, user, batchId, records, now, other);
    }
  }

  lemma MarkKeepsInv(env: Env, s: System, call: CallId, now: int)
    requires Inv(s) && call in s.calls && s.calls[call].Pending? && CanMark(s.codes, s.calls[call].id)
    ensures Inv(Step(env, s, MarkUsed(call, now)))
  {
    var id := s.calls[call].id;
    var t := Step(env, s, MarkUsed(call, now));
    assert RowGood(s, id);
    assert s.accepted + [id] == t.accepted;
    forall i | 0 <= i < |t.codes| ensures RowGood(t, i) {
      assert RowGood(s, i);
    }
    forall user ensures Counted(t, user) {
      assert Counted(s, user);
      CountMarked(s.codes, id, user, now);
    }
  }

  lemma {:induction false} RunKeepsInv(env: Env, s: System, es: seq<Event>, t: System)
    requires Inv(s) && Run(env, s, es, t)
    ensures Inv(t)
    decreases |es|
  {
    if |es| != 0 {
      match es[0]
      case CreateBatch(user, batchId, records, now) =>
        if Insertable(s.codes, records) {
          BatchKeepsInv(env, s, user, batchId, records, now);
        }
        RunKeepsInv(env, Step(env, s, es[0]), es[1..], t);
      case Lookup(_, _, _, _) =>
        CallsAreBeside(s, Step(env, s, es[0]));
        RunKeepsInv(env, Step(env, s, es[0]), es[1..], t);
      case MarkUsed(call, now) =>
        if CanMark(s.codes, s.calls[call].id) {
          MarkKeepsInv(env, s, call, now);
        } else {
          CallsAreBeside(s, Step(env, s, es[0]));
        }
        RunKeepsInv(env, Step(env, s, es[0]), es[1..], t);
    }
  }

  lemma CallsAreBeside(s: System, t: System)
    requires Inv(s) && t == s.(calls := t.calls)
    ensures Inv(t)
  {
    forall i | 0 <= i < |t.codes| ensures RowGood(t, i) {
      assert RowGood(s, i);
    }
    forall user ensures Counted(t, user) {
      assert Counted(s, user);
    }
  }

  /**
   In every state the system can reach: no code is accepted twice, none is both used and revoked, the active codes are
   exactly the unused ones of the user's latest batch, and their number is that batch's size less the successes since.
   */
  lemma ReachableStates(env: Env, s: System, es: seq<Event>, t: System)
    requires Initial(s) && Run(env, s, es, t)
    ensures Distinct(t.accepted)
    ensures forall i :: 0 <= i < |t.codes| ==>
              && (t.codes[i].usedAt.Some? <==> i in t.accepted)
              && !(t.codes[i].usedAt.Some? && t.codes[i].revokedAt.Some?)
              && (Active(t.codes[i]) <==> t.codes[i].usedAt.None? && OfLatest(t, t.codes[i]))
    ensures forall user :: user in t.latest ==>
              CountActive(t.codes, user) == t.latest[user].size - t.latest[user].successes
  {
    assert Inv(s);
    RunKeepsInv(env, s, es, t);
    forall i | 0 <= i < |t.codes|
      ensures t.codes[i].usedAt.Some? <==> i in t.accepted
      ensures !(t.codes[i].usedAt.Some? && t.codes[i].revokedAt.Some?)
      ensures Active(t.codes[i]) <==> t.codes[i].usedAt.None? && OfLatest(t, t.codes[i])
    {
      assert RowGood(t, i);
    }
    forall user | user in t.latest
      ensures CountActive(t.codes, user) == t.latest[user].size - t.latest[user].successes
    {
      assert Counted(t, user);
    }
  }

  predicate PendingKnown(s: System) {
    forall call :: call in s.calls && s.calls[call].Pending? ==> s.calls[call].id < |s.codes|
  }

  lemma {:induction false} RunKeepsPendingKnown(env: Env, s: System, es: seq<Event>, t: System)
    requires PendingKnown(s) && Run(env, s, es, t)
    ensures PendingKnown(t)
    decreases |es|
  {
    if |es| != 0 {
      assert |s.codes| <= |Step(env, s, es[0]).codes|;
      RunKeepsPendingKnown(env, Step(env, s, es[0]), es[1..], t);
    }
  }

  /** A call that found a code wins it exactly when nobody has won it since and the user has no newer batch. */
  lemma WinsExactly(env: Env, s: System, es: seq<Event>, t: System, call: CallId, now: int)
    requires Initial(s) && Run(env, s, es, t)
    requires call in t.calls && t.calls[call].Pending?
    ensures var id := t.calls[call].id;
            id < |t.codes| &&
            (Step(env, t, MarkUsed(call, now)).calls[call] == Accepted(id) <==>
            id !in t.accepted && OfLatest(t, t.codes[id]))
  {
    RunKeepsPendingKnown(env, s, es, t);
    ReachableStates(env, s, es, t);
  }

  /** What generateCodes stores for a code as it is shown; `argon` is argon2's hash. */
  function RecordOf(env: Env, argon: string -> string, code: string): Record {
    Record(env.hash(NormalizeCode(code)), argon(NormalizeCode(code)))
  }

  /** A generated code typed in any case and grouping is found and, undisturbed, accepted while its row is active. */
  lemma GeneratedCodeIsAccepted(env: Env, argon: string -> string, s: System, raw: string, typed: string, id: nat,
                                call: CallId, now: int)
    requires forall x :: env.verify(argon(x), x)
    requires NormalizeCode(typed) == NormalizeCode(raw) && call !in s.calls
    requires id < |s.codes| && Active(s.codes[id])
    requires Record(s.codes[id].lookupHash, s.codes[id].codeHash) == RecordOf(env, argon, Dashed(raw))
    requires forall i, j :: 0 <= i < j < |s.codes| ==> s.codes[i].lookupHash != s.codes[j].lookupHash
    ensures var look := Lookup(call, s.codes[id].userId, typed, Some(id));
            && Enabled(env, s, look)
            && Step(env, Step(env, s, look), MarkUsed(call, now)).calls[call] == Accepted(id)
    ensures forall found :: Enabled(env, s, Lookup(call, s.codes[id].userId, typed, found)) ==> found == Some(id)
  {
    hide NormalizeCode, Dashed;
    NormalizeUndoesDashes(raw);
    NormalIsNormal(NormalizeCode(typed));
    TypedFinds(s.codes, env.hash(NormalizeCode(NormalizeCode(typed))), id);
  }

  lemma TypedFinds(codes: seq<Code>, h: string, id: nat)
    requires id < |codes| && Active(codes[id]) && codes[id].lookupHash == h
    requires forall i, j :: 0 <= i < j < |codes| ==> codes[i].lookupHash != codes[j].lookupHash
    ensures forall found :: Finds(codes, h, found) <==> found == Some(id)
  {
  }
}

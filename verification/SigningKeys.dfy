/** Signing-key rotation: reads and the rotation transaction are separate steps of any number of overlapping calls. */
module SigningKeys {
  import opened Prelude

  type Kid = nat
  type CallId = nat

  datatype Reason = Bootstrap | Scheduled | Manual | Emergency

  datatype Key = Key(
    isActive: bool,
    createdAt: int,
    expiresAt: Option<int>,
    revokedAt: Option<int>,
    rotatedFromKid: Option<Kid>,
    rotationReason: Reason)

  type Keys = map<Kid, Key>

  datatype Options = Options(interval: int, grace: int)

  // ----- the statements -----

  predicate Usable(keys: Keys, kid: Kid) {
    kid in keys && keys[kid].isActive && keys[kid].expiresAt.None? && keys[kid].revokedAt.None?
  }

  /** is_active and expires_at is null and revoked_at is null, newest first, limit 1 */
  ghost predicate Current(keys: Keys, kid: Kid) {
    Usable(keys, kid) && forall k :: Usable(keys, k) ==> keys[k].createdAt <= keys[kid].createdAt
  }

  /** The conditional update's where clause. */
  predicate CanRetire(keys: Keys, kid: Kid) {
    kid in keys && keys[kid].isActive && keys[kid].revokedAt.None?
  }

  function RetiredKey(k: Key, reason: Reason, now: int, o: Options): Key {
    if reason == Emergency then
      k.(isActive := false, expiresAt := Some(now), revokedAt := Some(now), rotationReason := reason)
    else
      k.(isActive := false, expiresAt := Some(now + o.grace), rotationReason := reason)
  }

  function NewKey(from: Kid, reason: Reason, now: int): Key {
    Key(true, now, None, None, Some(from), reason)
  }

  /** One transaction: retire the key that was read if it still is active, then insert its successor. */
  function RotatedKeys(keys: Keys, kid: Kid, next: Kid, reason: Reason, now: int, o: Options): Keys {
    if CanRetire(keys, kid) then
      keys[kid := RetiredKey(keys[kid], reason, now, o)][next := NewKey(kid, reason, now)]
    else keys
  }

  /** revoked_at is null and (is_active or expires_at > now) */
  predicate Published(keys: Keys, kid: Kid, now: int) {
    && kid in keys
    && keys[kid].revokedAt.None?
    && (keys[kid].isActive || (keys[kid].expiresAt.Some? && keys[kid].expiresAt.value > now))
  }

  /** order by is_active desc, created_at asc; keys equal in both may come either way. */
  predicate ListedBefore(a: Key, b: Key) {
    (a.isActive && !b.isActive) || (a.isActive == b.isActive && a.createdAt <= b.createdAt)
  }

  /** No key twice, and in the order of the list. */
  predicate InListOrder(keys: Keys, kids: seq<Kid>) {
    && (forall k :: k in kids ==> k in keys)
    && forall i, j :: 0 <= i < j < |kids| ==> kids[i] != kids[j] && ListedBefore(keys[kids[i]], keys[kids[j]])
  }

  function InsertListed(keys: Keys, kids: seq<Kid>, kid: Kid): seq<Kid>
    requires kid in keys && forall k :: k in kids ==> k in keys
  {
    if |kids| == 0 then [kid]
    else if ListedBefore(keys[kid], keys[kids[0]]) then [kid] + kids
    else [kids[0]] + InsertListed(keys, kids[1..], kid)
  }

  lemma {:induction false} InsertListedKeeps(keys: Keys, kids: seq<Kid>, kid: Kid)
    requires kid in keys && forall k :: k in kids ==> k in keys
    ensures forall k :: k in InsertListed(keys, kids, kid) <==> k == kid || k in kids
  {
    if |kids| != 0 {
      assert kids == [kids[0]] + kids[1..];
      InsertListedKeeps(keys, kids[1..], kid);
    }
  }

  lemma ListedOrder(a: Key, b: Key, c: Key)
    ensures ListedBefore(a, b) || ListedBefore(b, a)
    ensures ListedBefore(a, b) && ListedBefore(b, c) ==> ListedBefore(a, c)
  {
  }

  /** A kid put before a list all of which it precedes. */
  lemma ListedFirst(keys: Keys, kid: Kid, kids: seq<Kid>)
    requires InListOrder(keys, kids) && kid in keys && kid !in kids
    requires forall k :: k in kids ==> ListedBefore(keys[kid], keys[k])
    ensures InListOrder(keys, [kid] + kids)
  {
  }

  lemma ListTail(keys: Keys, kids: seq<Kid>)
    requires InListOrder(keys, kids) && |kids| != 0
    ensures InListOrder(keys, kids[1..]) && kids[0] !in kids[1..]
    ensures forall k :: k in kids[1..] ==> k in kids && ListedBefore(keys[kids[0]], keys[k])
  {
    assert forall i :: 0 <= i < |kids[1..]| ==> kids[1..][i] == kids[i + 1];
  }

  lemma {:induction false} Listed(keys: Keys, kids: seq<Kid>, kid: Kid)
    requires InListOrder(keys, kids) && kid in keys && kid !in kids
    ensures InListOrder(keys, InsertListed(keys, kids, kid))
    ensures forall k :: k in InsertListed(keys, kids, kid) <==> k == kid || k in kids
  {
    InsertListedKeeps(keys, kids, kid);
    if |kids| == 0 {
      ListedFirst(keys, kid, kids);
    } else {
      ListTail(keys, kids);
      assert kids[0] in kids && kids == [kids[0]] + kids[1..];
      hide InListOrder, ListedBefore;
      ListedOrder(keys[kid], keys[kids[0]], keys[kid]);
      if ListedBefore(keys[kid], keys[kids[0]]) {
        forall k | k in kids ensures ListedBefore(keys[kid], keys[k]) {
          ListedOrder(keys[kid], keys[kids[0]], keys[k]);
        }
        ListedFirst(keys, kid, kids);
      } else {
        Listed(keys, kids[1..], kid);
        ListedFirst(keys, kids[0], InsertListed(keys, kids[1..], kid));
      }
    }
  }

  datatype State = ActiveState | GraceState | RevokedState

  function StateOf(k: Key): State {
    if k.revokedAt.Some? then RevokedState else if k.isActive then ActiveState else GraceState
  }

  /** The signing_keys table. */
  class KeyStore {
    const options: Options
    var signingKeys: Keys

    constructor (options: Options, keys: Keys)
      ensures this.options == options && signingKeys == keys
    {
      this.options := options;
      signingKeys := keys;
    }

    method GetCurrentActiveKey() returns (found: Option<Kid>)
      ensures found.Some? ==> Current(signingKeys, found.value)
      ensures found.Some? ==>
                && found.value in signingKeys && signingKeys[found.value].isActive
                && signingKeys[found.value].expiresAt == None && signingKeys[found.value].revokedAt == None
      ensures found.None? ==> forall k :: !Usable(signingKeys, k)
      ensures found.None? ==> forall k :: k in signingKeys ==>
                !(signingKeys[k].isActive && signingKeys[k].expiresAt == None && signingKeys[k].revokedAt == None)
    {
      var todo := signingKeys.Keys;
      found := None;
      while todo != {}
        invariant todo <= signingKeys.Keys
        invariant found.Some? ==> Usable(signingKeys, found.value)
        invariant forall k :: Usable(signingKeys, k) && k !in todo ==>
                    found.Some? && signingKeys[k].createdAt <= signingKeys[found.value].createdAt
        decreases todo
      {
        var k :| k in todo;
        todo := todo - {k};
        if signingKeys[k].isActive && signingKeys[k].expiresAt == None && signingKeys[k].revokedAt == None &&
           (found.None? || signingKeys[found.value].createdAt < signingKeys[k].createdAt) {
          found := Some(k);
        }
      }
    }

    method EnsureKeyExists(freshKid: Kid, now: int) returns (kid: Kid)
      requires freshKid !in signingKeys
      modifies this`signingKeys
      ensures Current(signingKeys, kid)
      ensures signingKeys == if exists k :: Usable(old(signingKeys), k) then old(signingKeys)
                             else old(signingKeys)[freshKid := Key(true, now, None, None, None, Bootstrap)]
    {
      var current := GetCurrentActiveKey();
      if current.Some? {
        return current.value;
      }
      signingKeys := signingKeys[freshKid := Key(true, now, None, None, None, Bootstrap)];
      assert forall k :: k != freshKid ==> (Usable(signingKeys, k) <==> Usable(old(signingKeys), k));
      return freshKid;
    }

    /** The transaction of rotateNow, whatever happened since `active` was read. */
    method RotationTransaction(active: Kid, next: Kid, reason: Reason, now: int) returns (rotated: bool)
      requires reason != Bootstrap
      modifies this`signingKeys
      ensures rotated <==> CanRetire(old(signingKeys), active)
      ensures signingKeys == RotatedKeys(old(signingKeys), active, next, reason, now, options)
    {
      rotated := CanRetire(signingKeys, active);
      if !rotated {
        return;
      }
      var row := signingKeys[active];
      row := row.(isActive := false, rotationReason := reason);
      if reason == Emergency {
        row := row.(expiresAt := Some(now), revokedAt := Some(now));
      } else {
        row := row.(expiresAt := Some(now + options.grace));
      }
      signingKeys := signingKeys[active := row];
      signingKeys := signingKeys[next := Key(true, now, None, None, Some(active), reason)];
    }

    /** A store without a usable key gets one first, so what is published is never empty; the active keys come first. */
    method GetPublicJwks(freshKid: Kid, now: int) returns (kids: seq<Kid>)
      requires freshKid !in signingKeys
      modifies this`signingKeys
      ensures signingKeys == if exists k :: Usable(old(signingKeys), k) then old(signingKeys)
                             else old(signingKeys)[freshKid := Key(true, now, None, None, None, Bootstrap)]
      ensures forall k :: k in kids <==> Published(signingKeys, k, now)
      ensures InListOrder(signingKeys, kids)
      ensures exists k :: k in kids && Current(signingKeys, k)
    {
      var kid := EnsureKeyExists(freshKid, now);
      assert Published(signingKeys, kid, now);
      kids := ListPublished(now);
    }

    /** The list query. */
    method ListPublished(now: int) returns (kids: seq<Kid>)
      ensures forall k :: k in kids <==> Published(signingKeys, k, now)
      ensures forall k :: k in kids <==>
                && k in signingKeys && signingKeys[k].revokedAt == None
                && (signingKeys[k].isActive ||
                    (signingKeys[k].expiresAt != None && now < signingKeys[k].expiresAt.value))
      ensures InListOrder(signingKeys, kids)
      ensures forall i, j :: 0 <= i < j < |kids| ==>
                var a, b := signingKeys[kids[i]], signingKeys[kids[j]];
                (b.isActive ==> a.isActive) && (a.isActive == b.isActive ==> a.createdAt <= b.createdAt)
    {
      var todo := set k | k in signingKeys && signingKeys[k].revokedAt == None &&
                          (signingKeys[k].isActive ||
                           (signingKeys[k].expiresAt != None && now < signingKeys[k].expiresAt.value));
      kids := [];
      while todo != {}
        invariant forall k :: k in kids || k in todo <==> Published(signingKeys, k, now)
        invariant InListOrder(signingKeys, kids) && forall k :: k in todo ==> k !in kids
        decreases todo
      {
        var k :| k in todo;
        todo := todo - {k};
        Listed(signingKeys, kids, k);
        kids := InsertListed(signingKeys, kids, k);
      }
    }
  }

  // ----- the protocol -----

  /** `due` is the key whose age a scheduled call checked. */
  datatype CallState =
    | AgeRead(kid: Kid, createdAt: int)
    | Going(reason: Reason, due: Option<Kid>)
    | Holding(kid: Kid, reason: Reason, due: Option<Kid>)
    | RotatedTo(kid: Kid)
    | NotRotated

  datatype Retirement = Retirement(kid: Kid, at: int, reason: Reason)

  /** The table, the clock, the calls, and as history the kids in order of creation and the retirements. */
  datatype System = System(keys: Keys, now: int, calls: map<CallId, CallState>, chain: seq<Kid>,
      retired: seq<Retirement>)

  datatype Event =
    | Tick(elapsed: nat)
    | ReadAge(call: CallId, kid: Kid)
    | CheckAge(call: CallId)
    | Begin(call: CallId, reason: Reason)
    | ReadActive(call: CallId, kid: Kid)
    | Commit(call: CallId, next: Kid)

  ghost predicate Enabled(s: System, e: Event) {
    match e
    case Tick(_) => true
    case ReadAge(c, kid) => c !in s.calls && Current(s.keys, kid)
    case CheckAge(c) => c in s.calls && s.calls[c].AgeRead?
    case Begin(c, reason) => c !in s.calls && (reason == Manual || reason == Emergency)
    case ReadActive(c, kid) => c in s.calls && s.calls[c].Going? && Current(s.keys, kid)
    case Commit(c, next) => c in s.calls && s.calls[c].Holding? && next !in s.keys
  }

  ghost function Step(s: System, e: Event, o: Options): System
    requires Enabled(s, e)
  {
    match e
    case Tick(elapsed) => s.(now := s.now + elapsed)
    case ReadAge(c, kid) => s.(calls := s.calls[c := AgeRead(kid, s.keys[kid].createdAt)])
    case CheckAge(c) =>
      var f := s.calls[c];
      s.(calls := s.calls[c := if s.now < f.createdAt + o.interval then NotRotated
                               else Going(Scheduled, Some(f.kid))])
    case Begin(c, reason) => s.(calls := s.calls[c := Going(reason, None)])
    case ReadActive(c, kid) => s.(calls := s.calls[c := Holding(kid, s.calls[c].reason, s.calls[c].due)])
    case Commit(c, next) =>
      var f := s.calls[c];
      if CanRetire(s.keys, f.kid) then
        System(RotatedKeys(s.keys, f.kid, next, f.reason, s.now, o), s.now, s.calls[c := RotatedTo(next)],
               s.chain + [next], s.retired + [Retirement(f.kid, s.now, f.reason)])
      else s.(calls := s.calls[c := NotRotated])
  }

  /** The calls do not wait for one another: each can begin once at any time, and each under way has its next step. */
  lemma CallsProceed(s: System, c: CallId, elapsed: nat)
    requires exists kid :: Current(s.keys, kid)
    ensures Enabled(s, Tick(elapsed))
    ensures c !in s.calls ==> Enabled(s, Begin(c, Manual)) && Enabled(s, Begin(c, Emergency))
    ensures c !in s.calls ==> exists kid :: Enabled(s, ReadAge(c, kid))
    ensures c in s.calls ==>
              match s.calls[c]
              case AgeRead(_, _) => Enabled(s, CheckAge(c))
              case Going(_, _) => exists kid :: Enabled(s, ReadActive(c, kid))
              case Holding(_, _, _) => forall next :: next !in s.keys ==> Enabled(s, Commit(c, next))
              case _ => true
    ensures forall reason :: Enabled(s, Begin(c, reason)) ==> c !in s.calls && reason in {Manual, Emergency}
    ensures forall kid :: Enabled(s, ReadAge(c, kid)) ==> c !in s.calls
  {
    var kid :| Current(s.keys, kid);
    assert c !in s.calls ==> Enabled(s, ReadAge(c, kid));
    assert c in s.calls && s.calls[c].Going? ==> Enabled(s, ReadActive(c, kid));
  }

  ghost predicate Run(s: System, es: seq<Event>, t: System, o: Options)
    decreases |es|
  {
    if |es| == 0 then s == t
    else Enabled(s, es[0]) && Run(Step(s, es[0], o), es[1..], t, o)
  }

  /** A store with one key. */
  ghost predicate Initial(s: System) {
    && s.calls == map[] && s.retired == []
    && |s.chain| == 1 && s.keys.Keys == {s.chain[0]} && Usable(s.keys, s.chain[0])
    && s.keys[s.chain[0]].createdAt <= s.now
  }

  // ----- the invariant -----

  predicate RetiredAs(k: Key, r: Retirement, o: Options) {
    && !k.isActive
    && k.expiresAt == Some(if r.reason == Emergency then r.at else r.at + o.grace)
    && k.revokedAt == (if r.reason == Emergency then Some(r.at) else None)
  }

  ghost predicate ChainShape(s: System) {
    && |s.chain| == |s.retired| + 1
    && Distinct(s.chain)
    && (forall k :: k in s.keys <==> k in s.chain)
  }

  /** Chain position i: its key is retired as recorded, and the next key was created from it at that moment. */
  predicate EntryGood(s: System, i: nat, o: Options) {
    && i < |s.retired|
    && i + 1 < |s.chain|
    && s.chain[i] in s.keys
    && s.chain[i + 1] in s.keys
    && s.keys[s.chain[i + 1]].rotatedFromKid == Some(s.chain[i])
    && s.keys[s.chain[i + 1]].createdAt == s.retired[i].at
    && s.retired[i].kid == s.chain[i]
    && RetiredAs(s.keys[s.chain[i]], s.retired[i], o)
  }

  predicate TimesOrdered(s: System) {
    && (forall i, j :: 0 <= i < j < |s.retired| ==> s.retired[i].at <= s.retired[j].at)
    && (forall i :: 0 <= i < |s.retired| ==> s.retired[i].at <= s.now)
  }

  ghost predicate Inv(s: System, o: Options) {
    && ChainShape(s)
    && (forall i :: 0 <= i < |s.retired| ==> EntryGood(s, i, o))
    && TimesOrdered(s)
    && Usable(s.keys, s.chain[|s.chain| - 1])
  }

  function ActiveKid(s: System): Kid
    requires |s.chain| > 0
  {
    s.chain[|s.chain| - 1]
  }

  lemma OnlyActive(s: System, o: Options, kid: Kid)
    requires Inv(s, o)
    ensures CanRetire(s.keys, kid) <==> kid == ActiveKid(s)
    ensures Current(s.keys, kid) <==> kid == ActiveKid(s)
    ensures kid in s.keys && s.keys[kid].isActive <==> kid == ActiveKid(s)
  {
    forall k | k in s.keys && k != ActiveKid(s) ensures !s.keys[k].isActive {
      var i :| 0 <= i < |s.chain| && s.chain[i] == k;
      assert EntryGood(s, i, o);
    }
  }

  lemma SnocShape(s: System, t: System, next: Kid)
    requires ChainShape(s) && next !in s.keys
    requires t.chain == s.chain + [next] && |t.retired| == |s.retired| + 1 && t.keys.Keys == s.keys.Keys + {next}
    ensures ChainShape(t)
  {
    forall k ensures k in t.keys <==> k in t.chain {
      assert k in t.chain <==> k in s.chain || k == next;
    }
    forall i | 0 <= i < |s.chain| ensures t.chain[i] != next {
      assert s.chain[i] in s.chain;
    }
  }

  lemma CommitKeepsEntry(s: System, t: System, c: CallId, next: Kid, i: nat, o: Options)
    requires Inv(s, o) && Enabled(s, Commit(c, next)) && s.calls[c].kid == ActiveKid(s)
    requires t == Step(s, Commit(c, next), o) && i <= |s.retired|
    ensures EntryGood(t, i, o)
  {
    var n := |s.retired|;
    assert t.chain[i] == s.chain[i];
    assert s.chain[n] in s.chain && s.chain[i] in s.chain;
    if i < n {
      assert EntryGood(s, i, o);
      assert t.chain[i + 1] == s.chain[i + 1] && t.retired[i] == s.retired[i];
      assert s.chain[i] != s.chain[n];
    } else {
      assert t.chain[n + 1] == next && t.retired[n].kid == s.chain[n];
    }
  }

  lemma CommitKeepsInv(s: System, c: CallId, next: Kid, o: Options)
    requires Inv(s, o) && Enabled(s, Commit(c, next)) && CanRetire(s.keys, s.calls[c].kid)
    ensures Inv(Step(s, Commit(c, next), o), o)
  {
    var t := Step(s, Commit(c, next), o);
    OnlyActive(s, o, s.calls[c].kid);
    SnocShape(s, t, next);
    forall i | 0 <= i < |t.retired| ensures EntryGood(t, i, o) {
      CommitKeepsEntry(s, t, c, next, i, o);
    }
  }

  lemma StepKeepsInv(s: System, e: Event, o: Options)
    requires Inv(s, o) && Enabled(s, e)
    ensures Inv(Step(s, e, o), o)
  {
    var t := Step(s, e, o);
    if e.Commit? && CanRetire(s.keys, s.calls[e.call].kid) {
      CommitKeepsInv(s, e.call, e.next, o);
    } else {
      forall i | 0 <= i < |t.retired| ensures EntryGood(t, i, o) {
        assert EntryGood(s, i, o);
      }
    }
  }

  lemma {:induction false} RunKeepsInv(s: System, es: seq<Event>, t: System, o: Options)
    requires Inv(s, o) && Run(s, es, t, o)
    ensures Inv(t, o)
    decreases |es|
  {
    if |es| != 0 {
      StepKeepsInv(s, es[0], o);
      RunKeepsInv(Step(s, es[0], o), es[1..], t, o);
    }
  }

  // ----- one active key, one chain -----

  /**
   Under every interleaving of scheduled, manual and emergency rotations exactly one key is active,
   no kid is retired twice, and rotatedFromKid threads all keys into one chain that ends at the active key.
   */
  lemma OneActiveKeyOneChain(s: System, es: seq<Event>, t: System, o: Options)
    requires Initial(s) && Run(s, es, t, o)
    ensures |t.chain| > 0
    ensures forall k :: k in t.keys && t.keys[k].isActive <==> k == ActiveKid(t)
    ensures forall i, j :: 0 <= i < j < |t.retired| ==> t.retired[i].kid != t.retired[j].kid
    ensures Distinct(t.chain) && forall k :: k in t.keys <==> k in t.chain
    ensures forall i :: 0 < i < |t.chain| ==> t.keys[t.chain[i]].rotatedFromKid == Some(t.chain[i - 1])
  {
    assert forall k :: k in s.keys <==> k in s.chain;
    RunKeepsInv(s, es, t, o);
    forall k ensures k in t.keys && t.keys[k].isActive <==> k == ActiveKid(t) {
      OnlyActive(t, o, k);
    }
    forall i, j | 0 <= i < j < |t.retired| ensures t.retired[i].kid != t.retired[j].kid {
      assert EntryGood(t, i, o) && EntryGood(t, j, o);
    }
    forall i | 0 < i < |t.chain| ensures t.keys[t.chain[i]].rotatedFromKid == Some(t.chain[i - 1]) {
      assert EntryGood(t, i - 1, o);
    }
  }

  // ----- what is published -----

  /**
   The published set holds the active key; a key retired by schedule or by hand exactly until its grace ends;
   a key retired in an emergency never.
   */
  lemma PublishedExactly(s: System, es: seq<Event>, t: System, o: Options)
    requires Initial(s) && Run(s, es, t, o)
    ensures |t.chain| > 0 && Published(t.keys, ActiveKid(t), t.now)
    ensures forall i :: 0 <= i < |t.retired| ==>
              (Published(t.keys, t.retired[i].kid, t.now) <==>
               t.retired[i].reason != Emergency && t.now < t.retired[i].at + o.grace)
    ensures forall k :: Published(t.keys, k, t.now) ==>
              k == ActiveKid(t) || exists i :: 0 <= i < |t.retired| && t.retired[i].kid == k
  {
    assert forall k :: k in s.keys <==> k in s.chain;
    RunKeepsInv(s, es, t, o);
    forall k | Published(t.keys, k, t.now) && k != ActiveKid(t)
      ensures exists i :: 0 <= i < |t.retired| && t.retired[i].kid == k
    {
      var i :| 0 <= i < |t.chain| && t.chain[i] == k;
      assert EntryGood(t, i, o);
    }
    forall i | 0 <= i < |t.retired|
      ensures Published(t.keys, t.retired[i].kid, t.now) <==>
              t.retired[i].reason != Emergency && t.now < t.retired[i].at + o.grace
    {
      assert EntryGood(t, i, o);
    }
  }

  /** listKeys calls a key active, in grace or revoked in agreement with its retirement. */
  lemma ListedStates(s: System, es: seq<Event>, t: System, o: Options)
    requires Initial(s) && Run(s, es, t, o)
    ensures |t.chain| > 0 && ActiveKid(t) in t.keys && StateOf(t.keys[ActiveKid(t)]) == ActiveState
    ensures forall i :: 0 <= i < |t.retired| ==>
              t.retired[i].kid in t.keys &&
              StateOf(t.keys[t.retired[i].kid]) ==
              if t.retired[i].reason == Emergency then RevokedState else GraceState
  {
    assert forall k :: k in s.keys <==> k in s.chain;
    RunKeepsInv(s, es, t, o);
    forall i | 0 <= i < |t.retired|
      ensures t.retired[i].kid in t.keys
      ensures StateOf(t.keys[t.retired[i].kid]) ==
              if t.retired[i].reason == Emergency then RevokedState else GraceState
    {
      assert EntryGood(t, i, o);
    }
  }

  // ----- how many are published -----

  ghost function PublishedSet(s: System): set<Kid> {
    set k | k in s.keys && Published(s.keys, k, s.now)
  }

  /** ceil(grace / interval) */
  function CeilDiv(a: int, b: int): int
    requires b > 0
  {
    (a + b - 1) / b
  }

  /** Each retired key had been active for a full interval. */
  predicate Spaced(s: System, o: Options) {
    forall i :: 0 < i < |s.retired| ==> s.retired[i].at >= s.retired[i - 1].at + o.interval
  }

  lemma {:induction false} SpacedApart(s: System, o: Options, i: nat, j: nat)
    requires Spaced(s, o) && i <= j < |s.retired|
    ensures s.retired[j].at >= s.retired[i].at + (j - i) * o.interval
    decreases j
  {
    if i < j {
      SpacedApart(s, o, i, j - 1);
      assert (j - i) * o.interval == (j - 1 - i) * o.interval + o.interval;
    }
  }

  lemma CountFits(k: nat, grace: int, interval: int)
    requires interval > 0 && k > 0 && (k - 1) * interval < grace
    ensures k <= CeilDiv(grace, interval)
  {
    var q := (grace + interval - 1) / interval;
    MulMono(q + 1, k, interval);
    assert k * interval == (k - 1) * interval + interval;
    assert grace + interval - 1 < (q + 1) * interval;
  }

  lemma MulMono(a: int, b: int, c: int)
    requires c > 0
    ensures a <= b ==> a * c <= b * c
  {
    if a <= b {
      assert (b - a) * c >= 0;
    }
  }

  /** The kids of chain positions from i on. */
  ghost function KidsFrom(chain: seq<Kid>, i: nat): (r: set<Kid>)
    requires i <= |chain|
    ensures |r| <= |chain| - i
    ensures forall j :: i <= j < |chain| ==> chain[j] in r
    decreases |chain| - i
  {
    if i == |chain| then {} else {chain[i]} + KidsFrom(chain, i + 1)
  }

  /** Where the retirements within the last grace period begin. */
  lemma FirstInGrace(s: System, o: Options) returns (first: nat)
    requires TimesOrdered(s)
    ensures first <= |s.retired|
    ensures forall i :: 0 <= i < |s.retired| ==> (s.retired[i].at > s.now - o.grace <==> first <= i)
  {
    first := |s.retired|;
    while first > 0 && s.retired[first - 1].at > s.now - o.grace
      invariant 0 <= first <= |s.retired|
      invariant forall i :: first <= i < |s.retired| ==> s.retired[i].at > s.now - o.grace
    {
      first := first - 1;
    }
  }

  lemma PublishedAreRecent(s: System, o: Options, first: nat)
    requires Inv(s, o) && first <= |s.retired|
    requires forall i :: 0 <= i < first ==> s.retired[i].at <= s.now - o.grace
    ensures PublishedSet(s) <= KidsFrom(s.chain, first)
  {
    forall k | k in PublishedSet(s) ensures k in KidsFrom(s.chain, first) {
      var i :| 0 <= i < |s.chain| && s.chain[i] == k;
      if i < first {
        assert EntryGood(s, i, o);
      }
    }
  }

  lemma FewPublished(s: System, o: Options)
    requires Inv(s, o) && Spaced(s, o) && o.interval > 0 && o.grace > 0
    ensures |PublishedSet(s)| <= 1 + CeilDiv(o.grace, o.interval)
  {
    var n := |s.retired|;
    var first := FirstInGrace(s, o);
    PublishedAreRecent(s, o, first);
    SubsetCount(PublishedSet(s), KidsFrom(s.chain, first));
    if first < n {
      SpacedApart(s, o, first, n - 1);
      CountFits(n - first, o.grace, o.interval);
    }
  }

  lemma SubsetCount<T>(a: set<T>, b: set<T>)
    requires a <= b
    ensures |a| <= |b|
  {
    assert b == a + (b - a);
  }

  /** Scheduled rotation only. */
  predicate ScheduledOnly(es: seq<Event>) {
    forall i :: 0 <= i < |es| ==> !es[i].Begin?
  }

  /** Every commit of the run retires the very key whose age its call had checked. */
  ghost predicate Focused(s: System, es: seq<Event>, o: Options)
    decreases |es|
  {
    |es| == 0 || (Enabled(s, es[0])
                  && (es[0].Commit? ==> s.calls[es[0].call].due == Some(s.calls[es[0].call].kid))
                  && Focused(Step(s, es[0], o), es[1..], o))
  }

  /** A scheduled call past its age check really found its key due. */
  predicate DueChecked(s: System, o: Options) {
    forall c :: c in s.calls ==>
      match s.calls[c]
      case AgeRead(kid, createdAt) => kid in s.keys && s.keys[kid].createdAt == createdAt
      case Going(_, due) => due.Some? ==> due.value in s.keys && s.keys[due.value].createdAt + o.interval <= s.now
      case Holding(_, _, due) => due.Some? ==> due.value in s.keys && s.keys[due.value].createdAt + o.interval <= s.now
      case _ => true
  }

  lemma StepKeepsDue(s: System, e: Event, o: Options)
    requires Inv(s, o) && Enabled(s, e) && DueChecked(s, o)
    ensures DueChecked(Step(s, e, o), o)
  {
  }

  lemma {:induction false} FocusedRunSpaced(s: System, es: seq<Event>, t: System, o: Options)
    requires Inv(s, o) && DueChecked(s, o) && Spaced(s, o)
    requires Run(s, es, t, o) && Focused(s, es, o)
    ensures Inv(t, o) && Spaced(t, o)
    decreases |es|
  {
    if |es| != 0 {
      var e := es[0];
      var m := Step(s, e, o);
      StepKeepsInv(s, e, o);
      StepKeepsDue(s, e, o);
      if e.Commit? {
        OnlyActive(s, o, s.calls[e.call].kid);
        assert forall i :: 0 <= i < |s.retired| ==> m.retired[i] == s.retired[i];
        assert |s.retired| > 0 ==> EntryGood(s, |s.retired| - 1, o);
      }
      FocusedRunSpaced(m, es[1..], t, o);
    }
  }

  lemma FocusedPublishesFew(s: System, es: seq<Event>, t: System, o: Options)
    requires Initial(s) && Run(s, es, t, o) && Focused(s, es, o)
    requires o.interval > 0 && o.grace > 0
    ensures |PublishedSet(t)| <= 1 + CeilDiv(o.grace, o.interval)
  {
    assert forall k :: k in s.keys <==> k in s.chain;
    FocusedRunSpaced(s, es, t, o);
    FewPublished(t, o);
  }

  // ----- calls one at a time -----

  predicate IsUnderWay(c: CallState) {
    c.AgeRead? || c.Going? || c.Holding?
  }

  function UnderWay(s: System): set<CallId> {
    set c | c in s.calls && IsUnderWay(s.calls[c])
  }

  /** At every moment of the run at most m calls are between their first read and their end. */
  ghost predicate AtMost(s: System, es: seq<Event>, m: nat, o: Options)
    decreases |es|
  {
    |UnderWay(s)| <= m && (|es| == 0 || (Enabled(s, es[0]) && AtMost(Step(s, es[0], o), es[1..], m, o)))
  }

  /** Whatever is under way read the key that still is active. */
  predicate PendingOnActive(s: System) {
    |s.chain| > 0 && forall c :: c in UnderWay(s) ==>
      match s.calls[c]
      case AgeRead(kid, _) => kid == ActiveKid(s)
      case Going(_, due) => due == Some(ActiveKid(s))
      case Holding(kid, _, due) => kid == ActiveKid(s) && due == Some(kid)
      case _ => true
  }

  lemma OnlyOne(ids: set<CallId>, c: CallId, d: CallId)
    requires |ids| <= 1 && c in ids && d in ids
    ensures c == d
  {
    SubsetCount({c, d}, ids);
    assert c != d ==> |{c, d}| == 2;
  }

  lemma StepKeepsPending(s: System, e: Event, o: Options)
    requires Inv(s, o) && Enabled(s, e) && !e.Begin? && PendingOnActive(s) && |UnderWay(s)| <= 1
    ensures PendingOnActive(Step(s, e, o))
    ensures e.Commit? ==> s.calls[e.call].due == Some(s.calls[e.call].kid)
  {
    var t := Step(s, e, o);
    if e.ReadAge? || e.ReadActive? {
      OnlyActive(s, o, e.kid);
    }
    if e.CheckAge? || e.ReadActive? || e.Commit? {
      assert e.call in UnderWay(s);
    }
    if e.Commit? {
      forall c | c in UnderWay(t) ensures c in UnderWay(s) && c != e.call {
      }
      forall c | c in UnderWay(s) ensures c == e.call {
        OnlyOne(UnderWay(s), c, e.call);
      }
      assert UnderWay(t) == {};
    }
  }

  lemma {:induction false} OneAtATimeIsFocused(s: System, es: seq<Event>, o: Options)
    requires Inv(s, o) && PendingOnActive(s) && AtMost(s, es, 1, o) && ScheduledOnly(es)
    ensures Focused(s, es, o)
    decreases |es|
  {
    if |es| != 0 {
      StepKeepsInv(s, es[0], o);
      StepKeepsPending(s, es[0], o);
      assert forall i :: 0 <= i < |es[1..]| ==> es[1..][i] == es[i + 1];
      OneAtATimeIsFocused(Step(s, es[0], o), es[1..], o);
    }
  }

  /** With scheduled rotation only, calls one at a time, at most 1 + ceil(grace / interval) keys are ever published. */
  lemma PublishedBound(s: System, es: seq<Event>, t: System, o: Options)
    requires Initial(s) && Run(s, es, t, o) && ScheduledOnly(es) && AtMost(s, es, 1, o)
    requires o.interval > 0 && o.grace > 0
    ensures |PublishedSet(t)| <= 1 + CeilDiv(o.grace, o.interval)
  {
    assert forall k :: k in s.keys <==> k in s.chain;
    OneAtATimeIsFocused(s, es, o);
    FocusedPublishesFew(s, es, t, o);
  }

  /** A call that sees no rotation between its age check and its second read stays focused. */
  lemma UndisturbedIsFocused(s: System, o: Options, c: CallId, kid: Kid)
    requires Inv(s, o) && Enabled(s, ReadActive(c, kid))
    requires s.calls[c].due.Some? && CanRetire(s.keys, s.calls[c].due.value)
    ensures var f := Step(s, ReadActive(c, kid), o).calls[c];
            f.due == Some(f.kid)
  {
    OnlyActive(s, o, kid);
    OnlyActive(s, o, s.calls[c].due.value);
  }

  // ----- overlapping scheduled calls break the bound -----

  /** Calls from lo to hi have passed their age check and not yet read the active key. */
  predicate Queue(s: System, lo: nat, hi: nat) {
    forall c :: lo <= c < hi ==> c in s.calls && s.calls[c].Going? && s.calls[c].reason == Scheduled
  }

  lemma RunJoin(s: System, es: seq<Event>, m: System, fs: seq<Event>, t: System, o: Options)
    requires Run(s, es, m, o) && Run(m, fs, t, o)
    ensures Run(s, es + fs, t, o)
    decreases |es|
  {
    if |es| == 0 {
      assert es + fs == fs;
    } else {
      assert (es + fs)[1..] == es[1..] + fs;
      RunJoin(Step(s, es[0], o), es[1..], m, fs, t, o);
    }
  }

  lemma RunTwo(s: System, e: Event, f: Event, o: Options)
    requires Enabled(s, e) && Enabled(Step(s, e, o), f)
    ensures Run(s, [e, f], Step(Step(s, e, o), f, o), o)
  {
    var m := Step(s, e, o);
    var t := Step(m, f, o);
    assert [e, f][1..] == [f] && [f][1..] == [];
    assert Run(t, [], t, o);
    assert Run(m, [f], t, o);
  }

  /** n calls check the age of one due key, one after the other. */
  lemma {:induction false} QueueUp(s: System, n: nat, o: Options) returns (es: seq<Event>, t: System)
    requires Inv(s, o) && s.calls == map[]
    requires s.keys[ActiveKid(s)].createdAt + o.interval <= s.now
    ensures Run(s, es, t, o) && ScheduledOnly(es)
    ensures t.keys == s.keys && t.now == s.now && t.chain == s.chain && t.retired == s.retired
    ensures Queue(t, 0, n) && forall c :: c in t.calls ==> c < n
  {
    if n == 0 {
      es, t := [], s;
    } else {
      var fs, m := QueueUp(s, n - 1, o);
      var kid := ActiveKid(s);
      OnlyActive(s, o, kid);
      var c := n - 1;
      var a := Step(m, ReadAge(c, kid), o);
      t := Step(a, CheckAge(c), o);
      RunTwo(m, ReadAge(c, kid), CheckAge(c), o);
      RunJoin(s, fs, m, [ReadAge(c, kid), CheckAge(c)], t, o);
      es := fs + [ReadAge(c, kid), CheckAge(c)];
    }
  }

  lemma FreshKid(keys: Keys) returns (kid: Kid)
    ensures kid !in keys
  {
    var ks := keys.Keys;
    var bound := SetBound(ks);
    kid := bound;
  }

  lemma {:induction false} SetBound(ks: set<nat>) returns (bound: nat)
    ensures forall k :: k in ks ==> k < bound
  {
    if ks == {} {
      bound := 0;
    } else {
      var x :| x in ks;
      var b := SetBound(ks - {x});
      bound := if b > x then b else x + 1;
      assert forall k :: k in ks ==> k == x || k in ks - {x};
    }
  }

  /** A queued call reads the newest key and rotates it at once, due or not. */
  lemma DrainOne(s: System, c: CallId, o: Options) returns (es: seq<Event>, t: System)
    requires Inv(s, o) && c in s.calls && s.calls[c].Going? && s.calls[c].reason == Scheduled
    ensures Run(s, es, t, o) && ScheduledOnly(es) && Inv(t, o) && t.now == s.now
    ensures exists kid :: t.retired == s.retired + [Retirement(kid, s.now, Scheduled)]
    ensures forall d :: d in s.calls && d != c ==> d in t.calls && t.calls[d] == s.calls[d]
  {
    var kid := ActiveKid(s);
    OnlyActive(s, o, kid);
    var next := FreshKid(s.keys);
    var e, f := ReadActive(c, kid), Commit(c, next);
    var a := Step(s, e, o);
    t := Step(a, f, o);
    es := [e, f];
    RunTwo(s, e, f, o);
    StepKeepsInv(s, e, o);
    StepKeepsInv(a, f, o);
  }

  lemma {:induction false} Drain(s: System, lo: nat, hi: nat, o: Options) returns (es: seq<Event>, t: System)
    requires Inv(s, o) && lo <= hi && Queue(s, lo, hi)
    ensures Run(s, es, t, o) && ScheduledOnly(es) && Inv(t, o) && t.now == s.now
    ensures |t.retired| == |s.retired| + (hi - lo) && s.retired <= t.retired
    ensures forall i :: |s.retired| <= i < |t.retired| ==> t.retired[i].at == s.now && t.retired[i].reason == Scheduled
    decreases hi - lo
  {
    if lo == hi {
      es, t := [], s;
    } else {
      var first, m := DrainOne(s, lo, o);
      var rest: seq<Event>;
      rest, t := Drain(m, lo + 1, hi, o);
      RunJoin(s, first, m, rest, t, o);
      es := first + rest;
      assert t.retired[|s.retired|] == m.retired[|s.retired|];
    }
  }

  lemma {:induction false} AllInSet(chain: seq<Kid>, ks: set<Kid>)
    requires Distinct(chain) && forall i :: 0 <= i < |chain| ==> chain[i] in ks
    ensures |ks| >= |chain|
  {
    if |chain| != 0 {
      var n := |chain| - 1;
      AllInSet(chain[..n], ks - {chain[n]});
    }
  }

  /**
   Without that care the bound fails and nothing replaces it: with scheduled rotation only, n overlapping calls
   that find one key due leave n + 1 keys published in one instant.
   */
  lemma OverlapIsUnbounded(s: System, n: nat, o: Options) returns (es: seq<Event>, t: System)
    requires Initial(s) && o.grace > 0
    requires s.keys[s.chain[0]].createdAt + o.interval <= s.now
    ensures Run(s, es, t, o) && ScheduledOnly(es) && t.now == s.now
    ensures |PublishedSet(t)| >= n + 1
  {
    assert forall k :: k in s.keys <==> k in s.chain;
    var fs, m := QueueUp(s, n, o);
    assert Inv(m, o);
    var gs: seq<Event>;
    gs, t := Drain(m, 0, n, o);
    RunJoin(s, fs, m, gs, t, o);
    es := fs + gs;
    forall i | 0 <= i < |t.chain| ensures t.chain[i] in PublishedSet(t) {
      if i < |t.retired| {
        assert EntryGood(t, i, o);
      }
    }
    AllInSet(t.chain, PublishedSet(t));
  }

  // ----- the bound holds exactly for calls one at a time -----

  /** A scheduled-only run with at most m calls under way. */
  ghost predicate Leads(s: System, es: seq<Event>, t: System, m: nat, o: Options) {
    Run(s, es, t, o) && ScheduledOnly(es) && AtMost(s, es, m, o)
  }

  lemma {:induction false} LeadsOn(s: System, es: seq<Event>, t: System, e: Event, m: nat, o: Options)
    requires Leads(s, es, t, m, o) && Enabled(t, e) && !e.Begin? && |UnderWay(Step(t, e, o))| <= m
    ensures Leads(s, es + [e], Step(t, e, o), m, o)
    decreases |es|
  {
    var all := es + [e];
    if |es| == 0 {
      assert all == [e] && all[1..] == [];
      assert Run(Step(t, e, o), [], Step(t, e, o), o);
    } else {
      assert all[0] == es[0] && all[1..] == es[1..] + [e];
      assert forall i :: 0 <= i < |es[1..]| ==> es[1..][i] == es[i + 1];
      LeadsOn(Step(s, es[0], o), es[1..], t, e, m, o);
      assert forall i :: 0 < i < |all| ==> all[i] == all[1..][i - 1];
    }
  }

  lemma AtMostTwo(ids: set<CallId>, c: CallId, d: CallId)
    requires ids <= {c, d}
    ensures |ids| <= 2
  {
    SubsetCount(ids, {c, d});
  }

  /** Two idle calls find the active key due. */
  lemma BothDue(s: System, es: seq<Event>, t: System, c: CallId, d: CallId, o: Options)
    returns (fs: seq<Event>, u: System)
    requires Leads(s, es, t, 2, o) && Inv(t, o) && UnderWay(t) == {} && c != d && c !in t.calls && d !in t.calls
    requires t.keys[ActiveKid(t)].createdAt + o.interval <= t.now
    ensures Leads(s, fs, u, 2, o) && UnderWay(u) == {c, d}
    ensures u == t.(calls := u.calls) && Inv(u, o)
    ensures u.calls[c] == u.calls[d] == Going(Scheduled, Some(ActiveKid(t)))
  {
    var kid := ActiveKid(t);
    OnlyActive(t, o, kid);
    var a := Step(t, ReadAge(c, kid), o);
    assert UnderWay(a) <= {c, d};
    AtMostTwo(UnderWay(a), c, d);
    LeadsOn(s, es, t, ReadAge(c, kid), 2, o);
    var b := Step(a, CheckAge(c), o);
    assert UnderWay(b) <= {c, d};
    AtMostTwo(UnderWay(b), c, d);
    LeadsOn(s, es + [ReadAge(c, kid)], a, CheckAge(c), 2, o);
    var e := Step(b, ReadAge(d, kid), o);
    assert UnderWay(e) <= {c, d};
    AtMostTwo(UnderWay(e), c, d);
    LeadsOn(s, es + [ReadAge(c, kid)] + [CheckAge(c)], b, ReadAge(d, kid), 2, o);
    u := Step(e, CheckAge(d), o);
    assert UnderWay(u) <= {c, d};
    AtMostTwo(UnderWay(u), c, d);
    LeadsOn(s, es + [ReadAge(c, kid)] + [CheckAge(c)] + [ReadAge(d, kid)], e, CheckAge(d), 2, o);
    fs := es + [ReadAge(c, kid)] + [CheckAge(c)] + [ReadAge(d, kid)] + [CheckAge(d)];
    assert UnderWay(u) == {c, d};
    StepKeepsInv(t, ReadAge(c, kid), o);
    StepKeepsInv(a, CheckAge(c), o);
    StepKeepsInv(b, ReadAge(d, kid), o);
    StepKeepsInv(e, CheckAge(d), o);
  }

  /** One of at most two calls under way reads the active key and rotates it, due or not. */
  lemma RotateOne(s: System, es: seq<Event>, t: System, c: CallId, d: CallId, o: Options)
    returns (fs: seq<Event>, u: System)
    requires Leads(s, es, t, 2, o) && Inv(t, o) && c in UnderWay(t) && UnderWay(t) <= {c, d}
    requires t.calls[c].Going? && t.calls[c].reason == Scheduled
    ensures Leads(s, fs, u, 2, o) && Inv(u, o) && u.now == t.now && UnderWay(u) == UnderWay(t) - {c}
    ensures u.retired == t.retired + [Retirement(ActiveKid(t), t.now, Scheduled)]
    ensures ActiveKid(u) in u.keys && u.keys[ActiveKid(u)].createdAt == t.now
    ensures forall x :: x in t.calls && x != c ==> x in u.calls && u.calls[x] == t.calls[x]
  {
    var kid := ActiveKid(t);
    OnlyActive(t, o, kid);
    var next := FreshKid(t.keys);
    var a := Step(t, ReadActive(c, kid), o);
    assert UnderWay(a) <= {c, d};
    AtMostTwo(UnderWay(a), c, d);
    LeadsOn(s, es, t, ReadActive(c, kid), 2, o);
    u := Step(a, Commit(c, next), o);
    assert UnderWay(u) == UnderWay(t) - {c};
    AtMostTwo(UnderWay(u), c, d);
    LeadsOn(s, es + [ReadActive(c, kid)], a, Commit(c, next), 2, o);
    fs := es + [ReadActive(c, kid)] + [Commit(c, next)];
    StepKeepsInv(t, ReadActive(c, kid), o);
    StepKeepsInv(a, Commit(c, next), o);
  }

  /** Two overlapping calls at one due instant rotate twice. */
  lemma DoubleRotation(s: System, es: seq<Event>, t: System, o: Options) returns (fs: seq<Event>, u: System)
    requires Leads(s, es, t, 2, o) && Inv(t, o) && UnderWay(t) == {}
    requires t.keys[ActiveKid(t)].createdAt + o.interval <= t.now
    ensures Leads(s, fs, u, 2, o) && Inv(u, o) && UnderWay(u) == {} && u.now == t.now
    ensures |u.retired| == |t.retired| + 2 && t.retired <= u.retired
    ensures forall i :: |t.retired| <= i < |u.retired| ==> u.retired[i].at == t.now && u.retired[i].reason == Scheduled
    ensures ActiveKid(u) in u.keys && u.keys[ActiveKid(u)].createdAt == t.now
  {
    var c := SetBound(t.calls.Keys);
    var d := c + 1;
    var es1, m1 := BothDue(s, es, t, c, d, o);
    var es2, m2 := RotateOne(s, es1, m1, c, d, o);
    fs, u := RotateOne(s, es2, m2, d, c, o);
  }

  /** k due instants, one interval apart, with two overlapping calls at each. */
  lemma {:induction false} Rounds(s: System, k: nat, o: Options) returns (es: seq<Event>, t: System)
    requires k > 0 && o.interval > 0 && Inv(s, o) && UnderWay(s) == {} && s.retired == []
    requires s.keys[ActiveKid(s)].createdAt + o.interval <= s.now
    ensures Leads(s, es, t, 2, o) && Inv(t, o) && UnderWay(t) == {} && t.now == s.now + (k - 1) * o.interval
    ensures |t.retired| == 2 * k
    ensures forall i :: 0 <= i < |t.retired| ==> t.retired[i].at >= s.now && t.retired[i].reason == Scheduled
    ensures ActiveKid(t) in t.keys && t.keys[ActiveKid(t)].createdAt == t.now
  {
    if k == 1 {
      assert Leads(s, [], s, 2, o);
      es, t := DoubleRotation(s, [], s, o);
    } else {
      var fs, m := Rounds(s, k - 1, o);
      var later := Step(m, Tick(o.interval), o);
      assert UnderWay(later) == {};
      LeadsOn(s, fs, m, Tick(o.interval), 2, o);
      StepKeepsInv(m, Tick(o.interval), o);
      es, t := DoubleRotation(s, fs + [Tick(o.interval)], later, o);
      assert (k - 1) * o.interval == (k - 2) * o.interval + o.interval;
    }
  }

  /** Two calls at a time are enough to break the bound. */
  lemma TwoBreakTheBound(o: Options) returns (s: System, es: seq<Event>, t: System)
    requires o.interval > 0 && o.grace > 0
    ensures Initial(s) && Leads(s, es, t, 2, o) && |PublishedSet(t)| > 1 + CeilDiv(o.grace, o.interval)
  {
    s := System(map[0 := Key(true, 0, None, None, None, Bootstrap)], o.interval, map[], [0], []);
    var q := CeilDiv(o.grace, o.interval);
    CeilIsTight(o.grace, o.interval);
    es, t := Rounds(s, q, o);
    forall i | 0 <= i < |t.chain| ensures t.chain[i] in PublishedSet(t) {
      if i < |t.retired| {
        assert EntryGood(t, i, o);
      }
    }
    AllInSet(t.chain, PublishedSet(t));
  }

  lemma CeilIsTight(grace: int, interval: int)
    requires interval > 0 && grace > 0
    ensures CeilDiv(grace, interval) > 0 && (CeilDiv(grace, interval) - 1) * interval < grace
  {
    var q := (grace + interval - 1) / interval;
    assert q * interval <= grace + interval - 1;
    assert (q - 1) * interval == q * interval - interval;
    assert q > 0;
  }

  /** No run of scheduled rotations with at most m calls under way publishes more than the bound. */
  ghost predicate BoundHolds(m: nat, o: Options)
    requires o.interval > 0
  {
    forall s, es, t :: Initial(s) && Leads(s, es, t, m, o) ==> |PublishedSet(t)| <= 1 + CeilDiv(o.grace, o.interval)
  }

  lemma {:induction false} AtMostMore(s: System, es: seq<Event>, m: nat, n: nat, o: Options)
    requires AtMost(s, es, m, o) && m <= n
    ensures AtMost(s, es, n, o)
    decreases |es|
  {
    if |es| != 0 {
      AtMostMore(Step(s, es[0], o), es[1..], m, n, o);
    }
  }

  /**
   The bound on published keys holds for every scheduled-only run exactly when at most one call is under way at a time.
   */
  lemma BoundHoldsExactly(m: nat, o: Options)
    requires o.interval > 0 && o.grace > 0
    ensures BoundHolds(m, o) <==> m <= 1
  {
    if m <= 1 {
      forall s, es, t | Initial(s) && Leads(s, es, t, m, o)
        ensures |PublishedSet(t)| <= 1 + CeilDiv(o.grace, o.interval)
      {
        AtMostMore(s, es, m, 1, o);
        PublishedBound(s, es, t, o);
      }
    } else {
      var s, es, t := TwoBreakTheBound(o);
      AtMostMore(s, es, 2, m, o);
      assert Leads(s, es, t, m, o);
    }
  }
}

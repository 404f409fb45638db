/**
 Canonical JSON, the text that is hashed into the audit chain.
 `le(a, b)` stands for `a.localeCompare(b) <= 0`; a collation may rank two different keys equal.
 */
module Canonical {
  import opened Prelude
  import opened Json

  type Collation = (string, string) -> bool

  ghost predicate TotalPreorder(le: Collation) {
    && (forall a, b :: le(a, b) || le(b, a))
    && (forall a, b, c :: le(a, b) && le(b, c) ==> le(a, c))
  }

  predicate Ties(le: Collation, a: string, b: string) {
    le(a, b) && le(b, a)
  }

  // ----- the program -----

  /** Stable insertion: before the first member that is not smaller. */
  function Insert(le: Collation, m: Member, ms: seq<Member>): seq<Member> {
    if |ms| == 0 then [m]
    else if le(m.key, ms[0].key) then [m] + ms
    else [ms[0]] + Insert(le, m, ms[1..])
  }

  /** The stable sort of an object's entries by key. */
  function Sort(le: Collation, ms: seq<Member>): (r: seq<Member>)
    ensures |r| == |ms|
    ensures forall m :: m in r <==> m in ms
  {
    if |ms| == 0 then []
    else
      InsertMembers(le, ms[0], Sort(le, ms[1..]));
      assert ms == [ms[0]] + ms[1..];
      Insert(le, ms[0], Sort(le, ms[1..]))
  }

  lemma {:induction false} InsertMembers(le: Collation, m: Member, ms: seq<Member>)
    ensures |Insert(le, m, ms)| == |ms| + 1
    ensures forall x :: x in Insert(le, m, ms) <==> x == m || x in ms
  {
    if |ms| != 0 {
      assert ms == [ms[0]] + ms[1..];
      InsertMembers(le, m, ms[1..]);
    }
  }

  function Canonicalize(le: Collation, v: Value): string
    decreases v, 1, 0
  {
    match v
    case Null => "null"
    case Undefined => Quote("undefined")
    case Bool(b) => if b then "true" else "false"
    case Num(t) => t
    case Str(s) => Quote(s)
    case Arr(items) => "[" + CanonicalItems(le, items) + "]"
    case Obj(ms) => "{" + CanonicalMembers(le, Sort(le, ms), v) + "}"
  }

  function CanonicalItems(le: Collation, vs: seq<Value>): string
    decreases vs, 0, 0
  {
    if |vs| == 0 then ""
    else if |vs| == 1 then Canonicalize(le, vs[0])
    else Canonicalize(le, vs[0]) + "," + CanonicalItems(le, vs[1..])
  }

  /** The entries of `whole`, already sorted, as text. */
  function CanonicalMembers(le: Collation, ms: seq<Member>, whole: Value): string
    requires forall m :: m in ms ==> m.value < whole
    decreases whole, 0, |ms|
  {
    if |ms| == 0 then ""
    else if |ms| == 1 then Quote(ms[0].key) + ":" + Canonicalize(le, ms[0].value)
    else Quote(ms[0].key) + ":" + Canonicalize(le, ms[0].value) + "," + CanonicalMembers(le, ms[1..], whole)
  }

  // ----- the canonical text, exactly -----

  function ItemTexts(le: Collation, vs: seq<Value>): (texts: seq<string>)
    ensures |texts| == |vs| && forall i :: 0 <= i < |vs| ==> texts[i] == Canonicalize(le, vs[i])
  {
    seq(|vs|, i requires 0 <= i < |vs| => Canonicalize(le, vs[i]))
  }

  function MemberTexts(le: Collation, ms: seq<Member>): (texts: seq<string>)
    ensures |texts| == |ms|
    ensures forall i :: 0 <= i < |ms| ==> texts[i] == Quote(ms[i].key) + ":" + Canonicalize(le, ms[i].value)
  {
    seq(|ms|, i requires 0 <= i < |ms| => Quote(ms[i].key) + ":" + Canonicalize(le, ms[i].value))
  }

  lemma {:induction false} CanonicalItemsJoin(le: Collation, vs: seq<Value>)
    ensures CanonicalItems(le, vs) == Join(ItemTexts(le, vs), ",")
  {
    if |vs| > 1 {
      CanonicalItemsJoin(le, vs[1..]);
      assert ItemTexts(le, vs) == [Canonicalize(le, vs[0])] + ItemTexts(le, vs[1..]);
      JoinStep(",", Canonicalize(le, vs[0]), ItemTexts(le, vs[1..]));
    }
  }

  lemma {:induction false} CanonicalMembersJoin(le: Collation, ms: seq<Member>, whole: Value)
    requires forall m :: m in ms ==> m.value < whole
    ensures CanonicalMembers(le, ms, whole) == Join(MemberTexts(le, ms), ",")
    decreases |ms|
  {
    if |ms| > 1 {
      CanonicalMembersJoin(le, ms[1..], whole);
      var first := Quote(ms[0].key) + ":" + Canonicalize(le, ms[0].value);
      assert MemberTexts(le, ms) == [first] + MemberTexts(le, ms[1..]);
      JoinStep(",", first, MemberTexts(le, ms[1..]));
    }
  }

  lemma UndefinedText()
    ensures Quote("undefined") == "\"" + "undefined" + "\""
  {
    PlainText("undefined");
  }

  lemma CanonicalScalars(le: Collation, s: string, t: string, b: bool)
    ensures Canonicalize(le, Null) == "null" && Canonicalize(le, Bool(b)) == (if b then "true" else "false")
    ensures Canonicalize(le, Num(t)) == t && Canonicalize(le, Undefined) == "\"" + "undefined" + "\""
    ensures Canonicalize(le, Str(s)) == "\"" + Escape(s) + "\""
  {
    UndefinedText();
    hide Escape;
  }

  /** An array's items in order with nothing but commas between them. */
  lemma CanonicalArray(le: Collation, vs: seq<Value>)
    ensures Canonicalize(le, Arr(vs)) == "[" + Join(ItemTexts(le, vs), ",") + "]"
  {
    hide Join, ItemTexts;
    CanonicalItemsJoin(le, vs);
  }

  /** An object's entries in the order of their keys, each key quoted and followed by a colon, with commas between. */
  lemma CanonicalObject(le: Collation, ms: seq<Member>) returns (sorted: seq<Member>)
    requires TotalPreorder(le)
    ensures |sorted| == |ms| && (forall m :: m in sorted <==> m in ms)
    ensures forall i, j :: 0 <= i < j < |sorted| ==> le(sorted[i].key, sorted[j].key)
    ensures Canonicalize(le, Obj(ms)) == "{" + Join(MemberTexts(le, sorted), ",") + "}"
  {
    sorted := Sort(le, ms);
    SortOrdered(le, ms);
    hide Join, Sort, MemberTexts;
    CanonicalMembersJoin(le, sorted, Obj(ms));
  }

  /** A text without quotes, backslashes and control characters stands between quotes as it is. */
  lemma PlainCanonicalText(le: Collation, s: string)
    requires forall i :: 0 <= i < |s| ==> s[i] != '\"' && s[i] != '\\' && s[i] as int >= 32
    ensures Canonicalize(le, Str(s)) == "\"" + s + "\""
  {
    PlainText(s);
  }

  // ----- what a value means: objects are maps -----

  datatype Meaning =
    | MNull
    | MUndefined
    | MBool(b: bool)
    | MNum(text: string)
    | MStr(s: string)
    | MArr(items: seq<Meaning>)
    | MObj(members: map<string, Meaning>)

  function Denote(v: Value): Meaning {
    match v
    case Null => MNull
    case Undefined => MUndefined
    case Bool(b) => MBool(b)
    case Num(t) => MNum(t)
    case Str(s) => MStr(s)
    case Arr(items) => MArr(DenoteItems(items))
    case Obj(ms) => MObj(DenoteMembers(ms))
  }

  function DenoteItems(vs: seq<Value>): (r: seq<Meaning>)
    ensures |r| == |vs|
    ensures forall i :: 0 <= i < |vs| ==> r[i] == Denote(vs[i])
  {
    if |vs| == 0 then [] else [Denote(vs[0])] + DenoteItems(vs[1..])
  }

  function DenoteMembers(ms: seq<Member>): map<string, Meaning> {
    if |ms| == 0 then map[] else DenoteMembers(ms[1..])[ms[0].key := Denote(ms[0].value)]
  }

  // ----- canonical text is the printed form of a normal form -----

  function Normal(le: Collation, v: Value): Value {
    match v
    case Undefined => Str("undefined")
    case Arr(items) => Arr(NormalItems(le, items))
    case Obj(ms) => Obj(Sort(le, NormalMembers(le, ms)))
    case _ => v
  }

  function NormalItems(le: Collation, vs: seq<Value>): (r: seq<Value>)
    ensures |r| == |vs|
    ensures forall i :: 0 <= i < |vs| ==> r[i] == Normal(le, vs[i])
  {
    if |vs| == 0 then [] else [Normal(le, vs[0])] + NormalItems(le, vs[1..])
  }

  function NormalMembers(le: Collation, ms: seq<Member>): (r: seq<Member>)
    ensures |r| == |ms|
    ensures forall i :: 0 <= i < |ms| ==> r[i] == Member(ms[i].key, Normal(le, ms[i].value))
  {
    if |ms| == 0 then [] else [Member(ms[0].key, Normal(le, ms[0].value))] + NormalMembers(le, ms[1..])
  }

  lemma {:induction false} InsertCommutes(le: Collation, m: Member, ms: seq<Member>)
    ensures NormalMembers(le, Insert(le, m, ms)) ==
            Insert(le, Member(m.key, Normal(le, m.value)), NormalMembers(le, ms))
  {
    if |ms| != 0 {
      var n := Member(m.key, Normal(le, m.value));
      if le(m.key, ms[0].key) {
        assert ([m] + ms)[1..] == ms;
      } else {
        InsertCommutes(le, m, ms[1..]);
        assert ([ms[0]] + Insert(le, m, ms[1..]))[1..] == Insert(le, m, ms[1..]);
        assert NormalMembers(le, ms)[1..] == NormalMembers(le, ms[1..]);
      }
    } else {
      assert [m][1..] == [];
    }
  }

  lemma {:induction false} SortCommutes(le: Collation, ms: seq<Member>)
    ensures NormalMembers(le, Sort(le, ms)) == Sort(le, NormalMembers(le, ms))
  {
    if |ms| != 0 {
      SortCommutes(le, ms[1..]);
      InsertCommutes(le, ms[0], Sort(le, ms[1..]));
      assert NormalMembers(le, ms)[1..] == NormalMembers(le, ms[1..]);
    }
  }

  lemma {:induction false} CanonicalIsPrintedNormal(le: Collation, v: Value)
    ensures Canonicalize(le, v) == Print(Normal(le, v))
    decreases v, 1, 0
  {
    match v
    case Arr(items) => ItemsArePrintedNormal(le, items);
    case Obj(ms) =>
      MembersArePrintedNormal(le, Sort(le, ms), v);
      SortCommutes(le, ms);
    case _ =>
  }

  lemma {:induction false} ItemsArePrintedNormal(le: Collation, vs: seq<Value>)
    ensures CanonicalItems(le, vs) == PrintItems(NormalItems(le, vs))
    decreases vs, 0, 0
  {
    if |vs| != 0 {
      CanonicalIsPrintedNormal(le, vs[0]);
      ItemsArePrintedNormal(le, vs[1..]);
      assert NormalItems(le, vs)[1..] == NormalItems(le, vs[1..]);
    }
  }

  lemma {:induction false} MembersArePrintedNormal(le: Collation, ms: seq<Member>, whole: Value)
    requires forall m :: m in ms ==> m.value < whole
    ensures CanonicalMembers(le, ms, whole) == PrintMembers(NormalMembers(le, ms))
    decreases whole, 0, |ms|
  {
    if |ms| != 0 {
      CanonicalIsPrintedNormal(le, ms[0].value);
      MembersArePrintedNormal(le, ms[1..], whole);
      assert NormalMembers(le, ms)[1..] == NormalMembers(le, ms[1..]);
    }
  }

  // ----- the normal form is JSON and keeps the meaning -----

  predicate HasKey(ms: seq<Member>, k: string) {
    exists i :: 0 <= i < |ms| && ms[i].key == k
  }

  lemma DistinctKeys(ms: seq<Member>)
    ensures Distinct(Keys(ms)) <==> forall i, j :: 0 <= i < j < |ms| ==> ms[i].key != ms[j].key
  {
    var ks := Keys(ms);
    assert forall i :: 0 <= i < |ms| ==> ks[i] == ms[i].key;
  }

  lemma DistinctTail(ms: seq<Member>)
    requires |ms| > 0
    ensures Distinct(Keys(ms)) <==> Distinct(Keys(ms[1..])) && !HasKey(ms[1..], ms[0].key)
  {
    DistinctKeys(ms);
    DistinctKeys(ms[1..]);
    if Distinct(Keys(ms[1..])) && !HasKey(ms[1..], ms[0].key) {
      forall i, j | 0 <= i < j < |ms| ensures ms[i].key != ms[j].key {
        assert ms[j] == ms[1..][j - 1];
        if i > 0 { assert ms[i] == ms[1..][i - 1]; }
      }
    }
    if Distinct(Keys(ms)) {
      forall i | 0 <= i < |ms| - 1 ensures ms[1..][i].key != ms[0].key {
        assert ms[1..][i] == ms[i + 1];
      }
    }
  }

  lemma {:induction false} DenoteMembersAt(ms: seq<Member>)
    requires Distinct(Keys(ms))
    ensures forall k :: k in DenoteMembers(ms) <==> HasKey(ms, k)
    ensures forall i :: 0 <= i < |ms| ==>
              ms[i].key in DenoteMembers(ms) && DenoteMembers(ms)[ms[i].key] == Denote(ms[i].value)
  {
    if |ms| != 0 {
      DistinctTail(ms);
      DenoteMembersAt(ms[1..]);
      forall k ensures k in DenoteMembers(ms) <==> HasKey(ms, k) {
        if HasKey(ms, k) {
          var i :| 0 <= i < |ms| && ms[i].key == k;
          if i > 0 { assert ms[1..][i - 1].key == k; }
        }
        if HasKey(ms[1..], k) {
          var i :| 0 <= i < |ms[1..]| && ms[1..][i].key == k;
          assert ms[i + 1].key == k;
        }
      }
      forall i | 0 <= i < |ms|
        ensures ms[i].key in DenoteMembers(ms) && DenoteMembers(ms)[ms[i].key] == Denote(ms[i].value)
      {
        if i > 0 { assert ms[1..][i - 1] == ms[i]; }
      }
    }
  }

  /** Objects with the same keys in the same order mean the same only if their values do. */
  lemma SameKeysSameValues(ms: seq<Member>, ns: seq<Member>)
    requires Distinct(Keys(ms)) && |ms| == |ns| && Keys(ms) == Keys(ns)
    requires DenoteMembers(ms) == DenoteMembers(ns)
    ensures forall i :: 0 <= i < |ms| ==> Denote(ms[i].value) == Denote(ns[i].value)
  {
    DenoteMembersAt(ms);
    DenoteMembersAt(ns);
    forall i | 0 <= i < |ms| ensures Denote(ms[i].value) == Denote(ns[i].value) {
      assert ms[i].key == Keys(ms)[i] == ns[i].key;
    }
  }

  lemma KeysOfCons(m: Member, rest: seq<Member>)
    ensures forall k :: HasKey([m] + rest, k) <==> k == m.key || HasKey(rest, k)
  {
    var all := [m] + rest;
    forall k ensures HasKey(all, k) <==> k == m.key || HasKey(rest, k) {
      if k == m.key {
        assert all[0].key == k;
      }
      if i :| 0 <= i < |rest| && rest[i].key == k {
        assert all[i + 1] == rest[i];
      }
    }
  }

  lemma InsertKeys(le: Collation, m: Member, ms: seq<Member>)
    ensures forall k :: HasKey(Insert(le, m, ms), k) <==> k == m.key || HasKey(ms, k)
  {
    var r := Insert(le, m, ms);
    InsertMembers(le, m, ms);
    forall k ensures HasKey(r, k) <==> k == m.key || HasKey(ms, k) {
      if k == m.key || HasKey(ms, k) {
        var x :| (x == m || x in ms) && x.key == k;
        assert x in r;
      }
      if HasKey(r, k) {
        var i :| 0 <= i < |r| && r[i].key == k;
        assert r[i] in r;
      }
    }
  }

  /** Putting a member in behind the first is putting it into the rest. */
  lemma BehindFirst(h: Member, t: seq<Member>, u: seq<Member>, m: Member)
    requires Distinct(Keys([h] + t)) && Distinct(Keys(u)) && m.key != h.key
    requires forall k :: HasKey(u, k) <==> k == m.key || HasKey(t, k)
    requires DenoteMembers(u) == DenoteMembers(t)[m.key := Denote(m.value)]
    ensures Distinct(Keys([h] + u))
    ensures DenoteMembers([h] + u) == DenoteMembers([h] + t)[m.key := Denote(m.value)]
  {
    assert ([h] + t)[1..] == t && ([h] + u)[1..] == u;
    DistinctTail([h] + t);
    DistinctTail([h] + u);
  }

  lemma {:induction false} InsertKeepsMeaning(le: Collation, m: Member, ms: seq<Member>)
    requires Distinct(Keys(ms)) && !HasKey(ms, m.key)
    ensures Distinct(Keys(Insert(le, m, ms)))
    ensures forall k :: HasKey(Insert(le, m, ms), k) <==> k == m.key || HasKey(ms, k)
    ensures DenoteMembers(Insert(le, m, ms)) == DenoteMembers(ms)[m.key := Denote(m.value)]
  {
    var r := Insert(le, m, ms);
    InsertKeys(le, m, ms);
    if |ms| != 0 && !le(m.key, ms[0].key) {
      var t := ms[1..];
      assert ms == [ms[0]] + t && r == [ms[0]] + Insert(le, m, t);
      KeysOfCons(ms[0], t);
      DistinctTail(ms);
      hide HasKey, Distinct, Insert, DenoteMembers;
      InsertKeepsMeaning(le, m, t);
      BehindFirst(ms[0], t, Insert(le, m, t), m);
    } else {
      assert r == [m] + ms && r[1..] == ms;
      DistinctTail(r);
    }
  }

  lemma {:induction false} SortKeepsMeaning(le: Collation, ms: seq<Member>)
    requires Distinct(Keys(ms))
    ensures Distinct(Keys(Sort(le, ms)))
    ensures DenoteMembers(Sort(le, ms)) == DenoteMembers(ms)
  {
    if |ms| != 0 {
      DistinctTail(ms);
      SortKeepsMeaning(le, ms[1..]);
      var s := Sort(le, ms[1..]);
      assert forall i :: 0 <= i < |s| ==> s[i] in ms[1..];
      InsertKeepsMeaning(le, ms[0], s);
    }
  }

  lemma MembersOf(ms: seq<Member>)
    ensures AllMembersWellFormed(ms) <==> forall i :: 0 <= i < |ms| ==> WellFormed(ms[i].value)
    ensures NoMemberUndefined(ms) <==> forall i :: 0 <= i < |ms| ==> NoUndefined(ms[i].value)
  {
    if |ms| != 0 {
      MembersOf(ms[1..]);
      assert forall i :: 0 < i < |ms| ==> ms[i] == ms[1..][i - 1];
      assert forall i :: 0 <= i < |ms[1..]| ==> ms[1..][i] == ms[i + 1];
    }
  }

  lemma ItemsOf(vs: seq<Value>)
    ensures AllWellFormed(vs) <==> forall i :: 0 <= i < |vs| ==> WellFormed(vs[i])
    ensures NoneUndefined(vs) <==> forall i :: 0 <= i < |vs| ==> NoUndefined(vs[i])
  {
    if |vs| != 0 {
      ItemsOf(vs[1..]);
      assert forall i :: 0 < i < |vs| ==> vs[i] == vs[1..][i - 1];
      assert forall i :: 0 <= i < |vs[1..]| ==> vs[1..][i] == vs[i + 1];
    }
  }

  lemma {:induction false} NormalIsJson(le: Collation, v: Value)
    requires WellFormed(v)
    ensures IsJson(Normal(le, v))
  {
    match v
    case Arr(items) =>
      ItemsOf(items);
      ItemsOf(NormalItems(le, items));
      forall i | 0 <= i < |items| ensures IsJson(Normal(le, items[i])) {
        NormalIsJson(le, items[i]);
      }
    case Obj(ms) =>
      var ns := NormalMembers(le, ms);
      MembersOf(ms);
      MembersOf(Sort(le, ns));
      DistinctKeys(ms);
      DistinctKeys(ns);
      SortKeepsMeaning(le, ns);
      forall i | 0 <= i < |ms| ensures IsJson(Normal(le, ms[i].value)) {
        NormalIsJson(le, ms[i].value);
      }
      forall i | 0 <= i < |ns| ensures IsJson(Sort(le, ns)[i].value) {
        assert Sort(le, ns)[i] in ns;
      }
    case _ =>
  }

  /** The meaning of an object's normal form, member by member. */
  lemma NormalObjectMeaning(le: Collation, ms: seq<Member>)
    requires Distinct(Keys(ms))
    ensures Normal(le, Obj(ms)).Obj?
    ensures var d := DenoteMembers(Normal(le, Obj(ms)).members);
            && (forall k :: k in d <==> HasKey(ms, k))
            && (forall i :: 0 <= i < |ms| ==> ms[i].key in d && d[ms[i].key] == Denote(Normal(le, ms[i].value)))
  {
    var ns := NormalMembers(le, ms);
    DistinctKeys(ms);
    DistinctKeys(ns);
    SortKeepsMeaning(le, ns);
    DenoteMembersAt(ns);
    assert forall i :: 0 <= i < |ms| ==> ns[i].key == ms[i].key;
    assert forall k :: HasKey(ns, k) <==> HasKey(ms, k);
  }

  lemma ItemwiseMeaning(vs: seq<Value>, ws: seq<Value>)
    requires |vs| == |ws| && forall i :: 0 <= i < |vs| ==> Denote(vs[i]) == Denote(ws[i])
    ensures DenoteItems(vs) == DenoteItems(ws)
  {
  }

  lemma {:induction false} MemberwiseMeaning(ms: seq<Member>, ns: seq<Member>)
    requires |ms| == |ns|
    requires forall i :: 0 <= i < |ms| ==> ms[i].key == ns[i].key && Denote(ms[i].value) == Denote(ns[i].value)
    ensures DenoteMembers(ms) == DenoteMembers(ns)
  {
    if |ms| != 0 {
      hide Denote;
      MemberwiseMeaning(ms[1..], ns[1..]);
    }
  }

  lemma {:induction false} NormalMeansTheSame(le: Collation, v: Value)
    requires IsJson(v)
    ensures Denote(Normal(le, v)) == Denote(v)
  {
    match v
    case Arr(items) =>
      ItemsOf(items);
      forall i | 0 <= i < |items| ensures Denote(Normal(le, items[i])) == Denote(items[i]) {
        NormalMeansTheSame(le, items[i]);
      }
      ItemwiseMeaning(NormalItems(le, items), items);
    case Obj(ms) =>
      MembersOf(ms);
      forall i | 0 <= i < |ms| ensures Denote(Normal(le, ms[i].value)) == Denote(ms[i].value) {
        NormalMeansTheSame(le, ms[i].value);
      }
      MemberwiseMeaning(NormalMembers(le, ms), ms);
      NormalMembersDistinct(le, ms);
      SortKeepsMeaning(le, NormalMembers(le, ms));
    case _ =>
  }

  /** Equal canonical text means equal values, whatever the collation: objects as maps, at any depth. */
  lemma CanonicalInjective(le: Collation, v: Value, w: Value)
    requires IsJson(v) && IsJson(w) && Canonicalize(le, v) == Canonicalize(le, w)
    ensures Denote(v) == Denote(w)
  {
    SameTextSameNormal(le, v, w);
    NormalMeansTheSame(le, v);
    NormalMeansTheSame(le, w);
  }

  lemma SameTextSameNormal(le: Collation, v: Value, w: Value)
    requires WellFormed(v) && WellFormed(w) && Canonicalize(le, v) == Canonicalize(le, w)
    ensures Normal(le, v) == Normal(le, w)
  {
    CanonicalIsPrintedNormal(le, v);
    CanonicalIsPrintedNormal(le, w);
    NormalIsJson(le, v);
    NormalIsJson(le, w);
    PrintInjective(Normal(le, v), Normal(le, w));
  }

  // ----- entry order -----

  /** Two different keys of one object rank equal. */
  predicate HasTie(le: Collation, ms: seq<Member>) {
    exists i, j :: 0 <= i < j < |ms| && Ties(le, ms[i].key, ms[j].key)
  }

  /** The collation separates the keys of every object inside v. */
  predicate Separates(le: Collation, v: Value) {
    match v
    case Arr(items) => SeparatesItems(le, items)
    case Obj(ms) => !HasTie(le, ms) && SeparatesMembers(le, ms)
    case _ => true
  }

  predicate SeparatesItems(le: Collation, vs: seq<Value>) {
    |vs| == 0 || (Separates(le, vs[0]) && SeparatesItems(le, vs[1..]))
  }

  predicate SeparatesMembers(le: Collation, ms: seq<Member>) {
    |ms| == 0 || (Separates(le, ms[0].value) && SeparatesMembers(le, ms[1..]))
  }

  lemma SeparatesAt(le: Collation, vs: seq<Value>, ms: seq<Member>)
    ensures SeparatesItems(le, vs) ==> forall i :: 0 <= i < |vs| ==> Separates(le, vs[i])
    ensures SeparatesMembers(le, ms) ==> forall i :: 0 <= i < |ms| ==> Separates(le, ms[i].value)
    decreases |vs| + |ms|
  {
    if |vs| != 0 {
      SeparatesAt(le, vs[1..], ms);
      assert forall i :: 0 < i < |vs| ==> vs[i] == vs[1..][i - 1];
    }
    if |ms| != 0 {
      SeparatesAt(le, vs, ms[1..]);
      assert forall i :: 0 < i < |ms| ==> ms[i] == ms[1..][i - 1];
    }
  }

  predicate Precedes(ms: seq<Member>, a: string, b: string) {
    exists i, j :: 0 <= i < j < |ms| && ms[i].key == a && ms[j].key == b
  }

  lemma ConsPrecedes(m: Member, t: seq<Member>, a: string, b: string)
    ensures Precedes([m] + t, a, b) <==> Precedes(t, a, b) || (m.key == a && HasKey(t, b))
  {
    var all := [m] + t;
    assert forall i :: 0 <= i < |t| ==> all[i + 1] == t[i];
    if Precedes(t, a, b) {
      var i, j :| 0 <= i < j < |t| && t[i].key == a && t[j].key == b;
      assert all[i + 1].key == a && all[j + 1].key == b;
    }
    if m.key == a && HasKey(t, b) {
      var j :| 0 <= j < |t| && t[j].key == b;
      assert all[0].key == a && all[j + 1].key == b;
    }
  }

  lemma {:induction false} InsertKeepsPrecedes(le: Collation, m: Member, ms: seq<Member>, a: string, b: string)
    requires Precedes(ms, a, b)
    ensures Precedes(Insert(le, m, ms), a, b)
  {
    assert ms == [ms[0]] + ms[1..];
    ConsPrecedes(ms[0], ms[1..], a, b);
    if le(m.key, ms[0].key) {
      ConsPrecedes(m, ms, a, b);
    } else {
      var t := Insert(le, m, ms[1..]);
      InsertKeys(le, m, ms[1..]);
      hide Precedes, HasKey;
      ConsPrecedes(ms[0], t, a, b);
      if Precedes(ms[1..], a, b) {
        InsertKeepsPrecedes(le, m, ms[1..], a, b);
      }
    }
  }

  lemma {:induction false} InsertBefore(le: Collation, m: Member, ms: seq<Member>, j: nat)
    requires j < |ms| && le(m.key, ms[j].key)
    ensures Precedes(Insert(le, m, ms), m.key, ms[j].key)
  {
    var r := Insert(le, m, ms);
    if le(m.key, ms[0].key) {
      assert r[0].key == m.key && r[j + 1] == ms[j];
    } else {
      InsertBefore(le, m, ms[1..], j - 1);
      var t := Insert(le, m, ms[1..]);
      assert r == [ms[0]] + t;
      var p, q :| 0 <= p < q < |t| && t[p].key == m.key && t[q].key == ms[j].key;
      assert r[p + 1].key == m.key && r[q + 1].key == ms[j].key;
    }
  }

  /** The sort is stable: of two keys in a tie, the first stays first. */
  lemma {:induction false} SortStable(le: Collation, ms: seq<Member>, a: string, b: string)
    requires Precedes(ms, a, b) && le(a, b)
    ensures Precedes(Sort(le, ms), a, b)
  {
    var i, j :| 0 <= i < j < |ms| && ms[i].key == a && ms[j].key == b;
    var s := Sort(le, ms[1..]);
    if i == 0 {
      assert ms[1..][j - 1] == ms[j];
      assert ms[j] in s;
      var q :| 0 <= q < |s| && s[q] == ms[j];
      InsertBefore(le, ms[0], s, q);
    } else {
      assert ms[1..][i - 1].key == a && ms[1..][j - 1].key == b;
      SortStable(le, ms[1..], a, b);
      InsertKeepsPrecedes(le, ms[0], s, a, b);
    }
  }

  lemma OneOrder(ms: seq<Member>, a: string, b: string)
    requires Distinct(Keys(ms)) && Precedes(ms, a, b)
    ensures !Precedes(ms, b, a)
  {
    DistinctKeys(ms);
  }

  /** Entry i of one object and entry j of the other have one key. */
  predicate Meet(ms: seq<Member>, ns: seq<Member>, i: int, j: int) {
    0 <= i < |ms| && 0 <= j < |ns| && ms[i].key == ns[j].key
  }

  /** ns keeps the order in which ms has any two keys that rank equal. */
  predicate KeepsPairs(le: Collation, ms: seq<Member>, ns: seq<Member>) {
    forall i, j :: 0 <= i < j < |ms| && Ties(le, ms[i].key, ms[j].key) ==> Precedes(ns, ms[i].key, ms[j].key)
  }

  /** In every object of v, keys that rank equal come in the order in which w has them. */
  ghost predicate KeepsTies(le: Collation, v: Value, w: Value)
    decreases v
  {
    match v
    case Arr(items) =>
      w.Arr? && |items| == |w.items| && forall i :: 0 <= i < |items| ==> KeepsTies(le, items[i], w.items[i])
    case Obj(ms) =>
      && w.Obj? && KeepsPairs(le, ms, w.members)
      && forall i, j :: Meet(ms, w.members, i, j) ==>
           KeepsTies(le, ms[i].value, w.members[j].value)
    case _ => true
  }

  // ----- the sorted order -----

  predicate Ordered(le: Collation, ms: seq<Member>) {
    forall i, j :: 0 <= i < j < |ms| ==> le(ms[i].key, ms[j].key)
  }

  lemma {:induction false} InsertOrdered(le: Collation, m: Member, ms: seq<Member>)
    requires TotalPreorder(le) && Ordered(le, ms)
    ensures Ordered(le, Insert(le, m, ms))
  {
    if |ms| != 0 {
      if le(m.key, ms[0].key) {
        forall j | 0 < j < |ms| ensures le(m.key, ms[j].key) {
          assert le(ms[0].key, ms[j].key);
        }
      } else {
        var t := ms[1..];
        assert forall i :: 0 <= i < |t| ==> t[i] == ms[i + 1];
        InsertOrdered(le, m, t);
        InsertMembers(le, m, t);
        var r := Insert(le, m, t);
        forall j | 0 <= j < |r| ensures le(ms[0].key, r[j].key) {
          assert r[j] in r;
        }
      }
    }
  }

  lemma {:induction false} SortOrdered(le: Collation, ms: seq<Member>)
    requires TotalPreorder(le)
    ensures Ordered(le, Sort(le, ms))
  {
    if |ms| != 0 {
      SortOrdered(le, ms[1..]);
      InsertOrdered(le, ms[0], Sort(le, ms[1..]));
    }
  }

  /** The order the sort gives to keys that come as in `given`. */
  function Earlier(le: Collation, given: seq<Member>): Collation {
    (a, b) => le(a, b) && (!le(b, a) || Precedes(given, a, b))
  }

  predicate Strict(lt: Collation, ms: seq<Member>) {
    forall i, j :: 0 <= i < j < |ms| ==> lt(ms[i].key, ms[j].key) && !lt(ms[j].key, ms[i].key)
  }

  lemma StrictHeads(lt: Collation, a: seq<Member>, b: seq<Member>)
    requires Strict(lt, a) && Strict(lt, b) && |a| > 0 && |b| > 0
    requires forall m :: m in a <==> m in b
    ensures a[0] == b[0]
  {
    assert a[0] in b && b[0] in a;
  }

  lemma StrictTail(lt: Collation, a: seq<Member>)
    requires Strict(lt, a) && |a| > 0
    ensures Strict(lt, a[1..]) && forall m :: m in a[1..] <==> m in a && m != a[0]
  {
    assert forall i :: 0 <= i < |a[1..]| ==> a[1..][i] == a[i + 1] && a[i + 1] != a[0];
    assert a == [a[0]] + a[1..];
  }

  /** A strictly ordered sequence is determined by its elements. */
  lemma {:induction false} StrictUnique(lt: Collation, a: seq<Member>, b: seq<Member>)
    requires Strict(lt, a) && Strict(lt, b)
    requires forall m :: m in a <==> m in b
    ensures a == b
  {
    HasElement(a);
    HasElement(b);
    if |a| > 0 && |b| > 0 {
      StrictHeads(lt, a, b);
      StrictTail(lt, a);
      StrictTail(lt, b);
      hide Strict;
      StrictUnique(lt, a[1..], b[1..]);
      assert a == [a[0]] + a[1..] && b == [b[0]] + b[1..];
    }
  }

  /** Two different keys of an object come in one order or the other. */
  lemma SomeOrder(ms: seq<Member>, a: string, b: string)
    requires HasKey(ms, a) && HasKey(ms, b) && a != b
    ensures Precedes(ms, a, b) || Precedes(ms, b, a)
  {
    var i :| 0 <= i < |ms| && ms[i].key == a;
    var j :| 0 <= j < |ms| && ms[j].key == b;
  }

  /** The sort is strict in the order of the keys, ties taken as in `given`. */
  lemma SortEarlier(le: Collation, ms: seq<Member>, given: seq<Member>)
    requires TotalPreorder(le) && Distinct(Keys(ms)) && Distinct(Keys(given))
    requires forall a, b :: Ties(le, a, b) && Precedes(ms, a, b) ==> Precedes(given, a, b)
    ensures Strict(Earlier(le, given), Sort(le, ms))
  {
    var s := Sort(le, ms);
    SortOrdered(le, ms);
    SortKeepsMeaning(le, ms);
    forall i, j | 0 <= i < j < |s|
      ensures Earlier(le, given)(s[i].key, s[j].key) && !Earlier(le, given)(s[j].key, s[i].key)
    {
      if le(s[j].key, s[i].key) {
        SortedTie(le, ms, s, i, j);
        OneOrder(given, s[i].key, s[j].key);
      }
    }
  }

  lemma KeyOf(ms: seq<Member>, m: Member)
    requires m in ms
    ensures HasKey(ms, m.key)
  {
    var i :| 0 <= i < |ms| && ms[i] == m;
  }

  /** The sort leaves tied keys in the order they came in. */
  lemma TieAsGiven(le: Collation, ms: seq<Member>, a: string, b: string)
    requires Distinct(Keys(Sort(le, ms))) && Ties(le, a, b) && a != b
    requires HasKey(ms, a) && HasKey(ms, b) && Precedes(Sort(le, ms), a, b)
    ensures Precedes(ms, a, b)
  {
    hide Sort, Precedes, HasKey, Distinct;
    SomeOrder(ms, a, b);
    OneOrder(Sort(le, ms), a, b);
    if Precedes(ms, b, a) {
      SortStable(le, ms, b, a);
    }
  }

  lemma InOrder(ms: seq<Member>, i: nat, j: nat)
    requires Distinct(Keys(ms)) && i < j < |ms|
    ensures ms[i].key != ms[j].key && Precedes(ms, ms[i].key, ms[j].key)
    ensures HasKey(ms, ms[i].key) && HasKey(ms, ms[j].key)
  {
    DistinctKeys(ms);
  }

  lemma SortedTie(le: Collation, ms: seq<Member>, s: seq<Member>, i: nat, j: nat)
    requires s == Sort(le, ms) && Distinct(Keys(s))
    requires i < j < |s| && Ties(le, s[i].key, s[j].key)
    ensures Precedes(ms, s[i].key, s[j].key)
  {
    InOrder(s, i, j);
    KeyOf(ms, s[i]);
    KeyOf(ms, s[j]);
    TieAsGiven(le, ms, s[i].key, s[j].key);
  }

  lemma NormalPrecedes(le: Collation, ms: seq<Member>, a: string, b: string)
    ensures Precedes(NormalMembers(le, ms), a, b) <==> Precedes(ms, a, b)
  {
    var p := NormalMembers(le, ms);
    assert forall i :: 0 <= i < |ms| ==> p[i].key == ms[i].key;
  }

  lemma NormalMembersDistinct(le: Collation, ms: seq<Member>)
    requires Distinct(Keys(ms))
    ensures Distinct(Keys(NormalMembers(le, ms)))
    ensures Distinct(Keys(Sort(le, NormalMembers(le, ms))))
  {
    DistinctKeys(ms);
    DistinctKeys(NormalMembers(le, ms));
    SortKeepsMeaning(le, NormalMembers(le, ms));
  }

  lemma PairsAgree(le: Collation, ms: seq<Member>, ns: seq<Member>, a: string, b: string)
    requires Distinct(Keys(ms)) && Distinct(Keys(ns)) && KeepsPairs(le, ms, ns)
    requires forall k :: HasKey(ms, k) <==> HasKey(ns, k)
    requires Ties(le, a, b) && Precedes(ns, a, b)
    ensures Precedes(ms, a, b)
  {
    var i, j :| 0 <= i < j < |ns| && ns[i].key == a && ns[j].key == b;
    DistinctKeys(ns);
    assert HasKey(ns, a) && HasKey(ns, b);
    SomeOrder(ms, a, b);
    OneOrder(ns, a, b);
  }

  lemma SameNormalMembers(le: Collation, ms: seq<Member>, ns: seq<Member>)
    requires forall k :: HasKey(ms, k) ==> HasKey(ns, k)
    requires forall i, j :: Meet(ms, ns, i, j) ==>
               Normal(le, ms[i].value) == Normal(le, ns[j].value)
    ensures forall m :: m in NormalMembers(le, ms) ==> m in NormalMembers(le, ns)
  {
    var a, b := NormalMembers(le, ms), NormalMembers(le, ns);
    forall m | m in a ensures m in b {
      var i :| 0 <= i < |a| && a[i] == m;
      assert HasKey(ms, ms[i].key);
      var j :| 0 <= j < |ns| && ns[j].key == ms[i].key;
      assert Meet(ms, ns, i, j) && b[j] == m;
    }
  }

  /** Tied keys of the other object's normal form come in the order of ms. */
  lemma NormalFollows(le: Collation, ms: seq<Member>, ns: seq<Member>)
    requires KeepsPairs(le, ms, ns) && Distinct(Keys(ms)) && Distinct(Keys(ns))
    requires forall k :: HasKey(ms, k) <==> HasKey(ns, k)
    ensures forall a, b :: Ties(le, a, b) && Precedes(NormalMembers(le, ns), a, b) ==> Precedes(ms, a, b)
  {
    hide Precedes, KeepsPairs, HasKey, Distinct, NormalMembers;
    forall a, b | Ties(le, a, b) && Precedes(NormalMembers(le, ns), a, b) ensures Precedes(ms, a, b) {
      NormalPrecedes(le, ns, a, b);
      PairsAgree(le, ms, ns, a, b);
    }
  }

  lemma NormalSorted(le: Collation, ms: seq<Member>, ns: seq<Member>)
    requires TotalPreorder(le) && KeepsPairs(le, ms, ns) && Distinct(Keys(ms)) && Distinct(Keys(ns))
    requires forall k :: HasKey(ms, k) <==> HasKey(ns, k)
    ensures Strict(Earlier(le, ms), Sort(le, NormalMembers(le, ns)))
  {
    hide Precedes, KeepsPairs, HasKey, Distinct, NormalMembers, Sort;
    NormalMembersDistinct(le, ns);
    NormalFollows(le, ms, ns);
    SortEarlier(le, NormalMembers(le, ns), ms);
  }

  lemma KeepsOwnPairs(le: Collation, ms: seq<Member>)
    ensures KeepsPairs(le, ms, ms)
  {
  }

  lemma SameMembersSameSort(le: Collation, ms: seq<Member>, ns: seq<Member>)
    requires TotalPreorder(le) && KeepsPairs(le, ms, ns) && Distinct(Keys(ms)) && Distinct(Keys(ns))
    requires forall k :: HasKey(ms, k) <==> HasKey(ns, k)
    requires forall i, j :: Meet(ms, ns, i, j) ==> Normal(le, ms[i].value) == Normal(le, ns[j].value)
    ensures Normal(le, Obj(ms)) == Normal(le, Obj(ns))
  {
    SameNormalMembers(le, ms, ns);
    SameNormalMembers(le, ns, ms);
    KeepsOwnPairs(le, ms);
    hide KeepsPairs, HasKey, Distinct, Keys, Strict, Earlier;
    NormalSorted(le, ms, ms);
    NormalSorted(le, ms, ns);
    StrictUnique(Earlier(le, ms), Sort(le, NormalMembers(le, ms)), Sort(le, NormalMembers(le, ns)));
  }

  lemma SwappedTieChangesSort(le: Collation, p: seq<Member>, q: seq<Member>, a: string, b: string)
    requires Distinct(Keys(Sort(le, p))) && Ties(le, a, b)
    requires Precedes(p, a, b) && Precedes(q, b, a)
    ensures Sort(le, p) != Sort(le, q)
  {
    SortStable(le, p, a, b);
    SortStable(le, q, b, a);
    OneOrder(Sort(le, p), a, b);
  }

  lemma SameSortSamePair(le: Collation, ms: seq<Member>, ns: seq<Member>, a: string, b: string)
    requires Distinct(Keys(ms)) && Normal(le, Obj(ms)) == Normal(le, Obj(ns))
    requires a != b && HasKey(ns, a) && HasKey(ns, b) && Ties(le, a, b) && Precedes(ms, a, b)
    ensures Precedes(ns, a, b)
  {
    SomeOrder(ns, a, b);
    NormalMembersDistinct(le, ms);
    NormalPrecedes(le, ms, a, b);
    NormalPrecedes(le, ns, b, a);
    hide Precedes, HasKey, Distinct, Sort, NormalMembers;
    if Precedes(ns, b, a) {
      SwappedTieChangesSort(le, NormalMembers(le, ms), NormalMembers(le, ns), a, b);
    }
  }

  lemma SameSortKeepsPairs(le: Collation, ms: seq<Member>, ns: seq<Member>)
    requires Distinct(Keys(ms)) && Distinct(Keys(ns)) && Normal(le, Obj(ms)) == Normal(le, Obj(ns))
    requires forall k :: HasKey(ms, k) <==> HasKey(ns, k)
    ensures KeepsPairs(le, ms, ns)
  {
    hide Normal, Distinct, Precedes, HasKey;
    forall i, j | 0 <= i < j < |ms| && Ties(le, ms[i].key, ms[j].key) ensures Precedes(ns, ms[i].key, ms[j].key) {
      InOrder(ms, i, j);
      SameSortSamePair(le, ms, ns, ms[i].key, ms[j].key);
    }
  }

  lemma SameSortSameValues(le: Collation, ms: seq<Member>, ns: seq<Member>, i: nat, j: nat)
    requires Distinct(Keys(ns)) && Normal(le, Obj(ms)) == Normal(le, Obj(ns))
    requires i < |ms| && j < |ns| && ms[i].key == ns[j].key
    ensures Normal(le, ms[i].value) == Normal(le, ns[j].value)
  {
    var a, b := NormalMembers(le, ms), NormalMembers(le, ns);
    assert a[i] in Sort(le, a) && a[i] in b;
    var k :| 0 <= k < |b| && b[k] == a[i];
    DistinctKeys(ns);
    assert k == j;
  }

  lemma DenoteMemberAt(ms: seq<Member>, i: nat)
    requires Distinct(Keys(ms)) && i < |ms|
    ensures ms[i].key in DenoteMembers(ms) && DenoteMembers(ms)[ms[i].key] == Denote(ms[i].value)
  {
    hide DenoteMembers, Denote, Distinct;
    DenoteMembersAt(ms);
  }

  lemma DenoteMembersHas(ms: seq<Member>, k: string)
    requires Distinct(Keys(ms))
    ensures k in DenoteMembers(ms) <==> HasKey(ms, k)
  {
    DenoteMembersAt(ms);
  }

  lemma SameMeaningSameKeys(ms: seq<Member>, ns: seq<Member>)
    requires Distinct(Keys(ms)) && Distinct(Keys(ns)) && DenoteMembers(ms) == DenoteMembers(ns)
    ensures forall k :: HasKey(ms, k) <==> HasKey(ns, k)
    ensures forall i, j :: Meet(ms, ns, i, j) ==>
              Denote(ms[i].value) == Denote(ns[j].value)
  {
    hide Denote, DenoteMembers, HasKey, Distinct;
    forall k ensures HasKey(ms, k) <==> HasKey(ns, k) {
      DenoteMembersHas(ms, k);
      DenoteMembersHas(ns, k);
    }
    forall i, j | Meet(ms, ns, i, j)
      ensures Denote(ms[i].value) == Denote(ns[j].value)
    {
      DenoteMemberAt(ms, i);
      DenoteMemberAt(ns, j);
    }
  }

  /**
   Of two values that mean the same, the normal forms agree exactly when tied keys come in one order at every depth.
   */
  lemma {:induction false} SameNormalExactly(le: Collation, v: Value, w: Value)
    requires TotalPreorder(le) && IsJson(v) && IsJson(w) && Denote(v) == Denote(w)
    ensures Normal(le, v) == Normal(le, w) <==> KeepsTies(le, v, w)
    decreases v
  {
    match v
    case Arr(items) =>
      ItemsOf(items);
      ItemsOf(w.items);
      forall i | 0 <= i < |items|
        ensures Normal(le, items[i]) == Normal(le, w.items[i]) <==> KeepsTies(le, items[i], w.items[i])
      {
        assert DenoteItems(items)[i] == DenoteItems(w.items)[i];
        SameNormalExactly(le, items[i], w.items[i]);
      }
      assert |DenoteItems(items)| == |DenoteItems(w.items)|;
      assert Normal(le, v) == Normal(le, w) ==>
          forall i :: 0 <= i < |items| ==> NormalItems(le, items)[i] == NormalItems(le, w.items)[i];
    case Obj(ms) =>
      MembersOf(ms);
      MembersOf(w.members);
      SameMeaningSameKeys(ms, w.members);
      forall i, j | Meet(ms, w.members, i, j)
        ensures Normal(le, ms[i].value) == Normal(le, w.members[j].value) <==>
                KeepsTies(le, ms[i].value, w.members[j].value)
      {
        SameNormalExactly(le, ms[i].value, w.members[j].value);
      }
      SameNormalObjects(le, ms, w.members);
    case _ =>
  }

  lemma SameNormalObjects(le: Collation, ms: seq<Member>, ns: seq<Member>)
    requires TotalPreorder(le) && Distinct(Keys(ms)) && Distinct(Keys(ns))
    requires forall k :: HasKey(ms, k) <==> HasKey(ns, k)
    requires forall i, j :: Meet(ms, ns, i, j) ==>
               (Normal(le, ms[i].value) == Normal(le, ns[j].value) <==> KeepsTies(le, ms[i].value, ns[j].value))
    ensures Normal(le, Obj(ms)) == Normal(le, Obj(ns)) <==> KeepsTies(le, Obj(ms), Obj(ns))
  {
    hide Normal, KeepsPairs;
    if Normal(le, Obj(ms)) == Normal(le, Obj(ns)) {
      SameSortKeepsPairs(le, ms, ns);
      forall i, j | Meet(ms, ns, i, j)
        ensures KeepsTies(le, ms[i].value, ns[j].value)
      {
        SameSortSameValues(le, ms, ns, i, j);
      }
    }
    if KeepsTies(le, Obj(ms), Obj(ns)) {
      SameMembersSameSort(le, ms, ns);
    }
  }

  /**
   Canonical texts agree exactly when the values do, objects taken as maps, and keys the collation ranks equal come in
   the same order in both.
   */
  lemma SameTextExactly(le: Collation, v: Value, w: Value)
    requires TotalPreorder(le) && IsJson(v) && IsJson(w)
    ensures Canonicalize(le, v) == Canonicalize(le, w) <==> Denote(v) == Denote(w) && KeepsTies(le, v, w)
  {
    if Canonicalize(le, v) == Canonicalize(le, w) {
      CanonicalInjective(le, v, w);
      SameTextSameNormal(le, v, w);
    }
    if Denote(v) == Denote(w) {
      SameNormalExactly(le, v, w);
      CanonicalIsPrintedNormal(le, v);
      CanonicalIsPrintedNormal(le, w);
    }
  }

  lemma {:induction false} SeparatedKeepsTies(le: Collation, v: Value, w: Value)
    requires IsJson(v) && IsJson(w) && Denote(v) == Denote(w) && Separates(le, v)
    ensures KeepsTies(le, v, w)
    decreases v
  {
    match v
    case Arr(items) =>
      ItemsOf(items);
      ItemsOf(w.items);
      SeparatesAt(le, items, []);
      assert |DenoteItems(items)| == |DenoteItems(w.items)|;
      forall i | 0 <= i < |items| ensures KeepsTies(le, items[i], w.items[i]) {
        assert DenoteItems(items)[i] == DenoteItems(w.items)[i];
        SeparatedKeepsTies(le, items[i], w.items[i]);
      }
    case Obj(ms) =>
      MembersOf(ms);
      MembersOf(w.members);
      SeparatesAt(le, [], ms);
      SameMeaningSameKeys(ms, w.members);
      forall i, j | Meet(ms, w.members, i, j)
        ensures KeepsTies(le, ms[i].value, w.members[j].value)
      {
        SeparatedKeepsTies(le, ms[i].value, w.members[j].value);
      }
    case _ =>
  }

  /** With a collation that separates keys, canonical text is a complete invariant of the meaning. */
  lemma CanonicalComplete(le: Collation, v: Value, w: Value)
    requires TotalPreorder(le) && Separates(le, v)
    requires IsJson(v) && IsJson(w)
    ensures Canonicalize(le, v) == Canonicalize(le, w) <==> Denote(v) == Denote(w)
  {
    SameTextExactly(le, v, w);
    if Denote(v) == Denote(w) {
      SeparatedKeepsTies(le, v, w);
    }
  }

  // ----- exactly when entry order does not matter -----

  ghost predicate OrderIrrelevant(le: Collation, ms: seq<Member>) {
    forall ns :: multiset(ns) == multiset(ms) ==> Canonicalize(le, Obj(ns)) == Canonicalize(le, Obj(ms))
  }

  function Reversed(ms: seq<Member>): (r: seq<Member>)
    ensures |r| == |ms|
    ensures forall i :: 0 <= i < |ms| ==> r[i] == ms[|ms| - 1 - i]
    ensures multiset(r) == multiset(ms)
  {
    if |ms| == 0 then []
    else
      assert ms == [ms[0]] + ms[1..];
      Reversed(ms[1..]) + [ms[0]]
  }

  lemma ReversedIsJson(ms: seq<Member>)
    requires IsJson(Obj(ms))
    ensures IsJson(Obj(Reversed(ms)))
  {
    DistinctKeys(ms);
    DistinctKeys(Reversed(ms));
    MembersOf(ms);
    MembersOf(Reversed(ms));
  }

  lemma ReversedPrecedes(ms: seq<Member>, a: string, b: string)
    requires Precedes(ms, a, b)
    ensures Precedes(Reversed(ms), b, a)
  {
    var i, j :| 0 <= i < j < |ms| && ms[i].key == a && ms[j].key == b;
    var r := Reversed(ms);
    assert r[|ms| - 1 - j].key == b && r[|ms| - 1 - i].key == a;
  }

  lemma TieChangesSort(le: Collation, ms: seq<Member>, a: string, b: string)
    requires Distinct(Keys(ms))
    requires Precedes(ms, a, b) && Ties(le, a, b)
    ensures Sort(le, NormalMembers(le, Reversed(ms))) != Sort(le, NormalMembers(le, ms))
  {
    ReversedPrecedes(ms, a, b);
    NormalPrecedes(le, ms, a, b);
    NormalPrecedes(le, Reversed(ms), b, a);
    NormalMembersDistinct(le, ms);
    SwappedTieChangesSort(le, NormalMembers(le, ms), NormalMembers(le, Reversed(ms)), a, b);
  }

  lemma NormalShows(le: Collation, v: Value, w: Value)
    requires WellFormed(v) && WellFormed(w) && Normal(le, v) != Normal(le, w)
    ensures Canonicalize(le, v) != Canonicalize(le, w)
  {
    if Canonicalize(le, v) == Canonicalize(le, w) {
      SameTextSameNormal(le, v, w);
    }
  }

  lemma TieShowsOrder(le: Collation, ms: seq<Member>, r: seq<Member>, a: string, b: string)
    requires IsJson(Obj(ms)) && r == Reversed(ms)
    requires Precedes(ms, a, b) && Ties(le, a, b)
    ensures IsJson(Obj(r)) && Normal(le, Obj(r)) != Normal(le, Obj(ms))
    ensures Canonicalize(le, Obj(r)) != Canonicalize(le, Obj(ms))
  {
    ReversedIsJson(ms);
    TieChangesSort(le, ms, a, b);
    hide Precedes, Sort, Distinct, Keys, Reversed;
    NormalShows(le, Obj(r), Obj(ms));
  }

  /** Canonical text ignores the order of an object's entries exactly when no two of its keys rank equal. */
  lemma OrderIrrelevantExactly(le: Collation, ms: seq<Member>)
    requires TotalPreorder(le) && IsJson(Obj(ms))
    ensures OrderIrrelevant(le, ms) <==> !HasTie(le, ms)
  {
    if HasTie(le, ms) {
      var i, j :| 0 <= i < j < |ms| && Ties(le, ms[i].key, ms[j].key);
      InOrder(ms, i, j);
      TieShowsOrder(le, ms, Reversed(ms), ms[i].key, ms[j].key);
    } else {
      forall ns | multiset(ns) == multiset(ms)
        ensures Canonicalize(le, Obj(ns)) == Canonicalize(le, Obj(ms))
      {
        PermutedEntries(ms, ns);
        DistinctKeys(ms);
        SameMembersSameSort(le, ms, ns);
        CanonicalIsPrintedNormal(le, Obj(ms));
        CanonicalIsPrintedNormal(le, Obj(ns));
      }
    }
  }

  lemma PermutedEntries(ms: seq<Member>, ns: seq<Member>)
    requires multiset(ns) == multiset(ms) && Distinct(Keys(ms))
    ensures Distinct(Keys(ns))
    ensures forall k :: HasKey(ms, k) <==> HasKey(ns, k)
    ensures forall i, j :: Meet(ms, ns, i, j) ==> ms[i] == ns[j]
  {
    DistinctKeys(ms);
    DistinctKeys(ns);
    assert forall m :: m in ns <==> m in multiset(ns);
    assert forall m :: m in ms <==> m in multiset(ms);
    forall i, j | 0 <= i < j < |ns| ensures ns[i].key != ns[j].key {
      if ns[i].key == ns[j].key {
        assert ns[i] in ms && ns[j] in ms;
        assert ns[i] == ns[j];
        AppearsOnce(ms, ns[i]);
        AppearsTwice(ns, i, j);
      }
    }
    forall k ensures HasKey(ms, k) <==> HasKey(ns, k) {
      if HasKey(ms, k) {
        var i :| 0 <= i < |ms| && ms[i].key == k;
        assert ms[i] in ns;
      }
      if HasKey(ns, k) {
        var i :| 0 <= i < |ns| && ns[i].key == k;
        assert ns[i] in ms;
      }
    }
    forall i, j | Meet(ms, ns, i, j) ensures ms[i] == ns[j] {
      assert ns[j] in ms;
    }
  }

  lemma {:induction false} AppearsOnce(ms: seq<Member>, m: Member)
    requires forall i, j :: 0 <= i < j < |ms| ==> ms[i].key != ms[j].key
    ensures multiset(ms)[m] <= 1
  {
    if |ms| != 0 {
      assert ms == [ms[0]] + ms[1..];
      AppearsOnce(ms[1..], m);
      assert forall i :: 0 <= i < |ms[1..]| ==> ms[1..][i] == ms[i + 1] && ms[i + 1].key != ms[0].key;
    }
  }

  lemma AppearsTwice(ms: seq<Member>, i: nat, j: nat)
    requires i < j < |ms| && ms[i] == ms[j]
    ensures multiset(ms)[ms[i]] >= 2
  {
    assert ms == ms[..j] + ms[j..];
    assert ms[..j][i] == ms[i] && ms[j..][0] == ms[i];
    assert ms[i] in ms[..j] && ms[i] in ms[j..];
  }

  // ----- exactly when the order at any depth does not matter -----

  ghost predicate TextIgnoresOrder(le: Collation, v: Value) {
    forall w :: IsJson(w) && Denote(w) == Denote(v) ==> Canonicalize(le, w) == Canonicalize(le, v)
  }

  predicate Alike(m: Member, n: Member) {
    m.key == n.key && Denote(m.value) == Denote(n.value)
  }

  predicate HasAlike(m: Member, ns: seq<Member>) {
    exists n :: n in ns && Alike(m, n)
  }

  lemma KeyMeaning(ms: seq<Member>, m: Member)
    requires Distinct(Keys(ms)) && m in ms
    ensures m.key in DenoteMembers(ms) && DenoteMembers(ms)[m.key] == Denote(m.value)
  {
    var i :| 0 <= i < |ms| && ms[i] == m;
    hide *;
    DenoteMemberAt(ms, i);
  }

  lemma MemberOfKey(ms: seq<Member>, k: string) returns (m: Member)
    requires Distinct(Keys(ms)) && k in DenoteMembers(ms)
    ensures m in ms && m.key == k
  {
    DenoteMembersHas(ms, k);
    var i :| 0 <= i < |ms| && ms[i].key == k;
    m := ms[i];
  }

  /** Objects with distinct keys and alike members mean the same. */
  lemma AlikeMeanTheSame(ms: seq<Member>, ns: seq<Member>)
    requires Distinct(Keys(ms)) && Distinct(Keys(ns))
    requires forall m :: m in ms ==> HasAlike(m, ns)
    requires forall n :: n in ns ==> HasAlike(n, ms)
    ensures DenoteMembers(ms) == DenoteMembers(ns)
  {
    hide Denote, DenoteMembers, Distinct;
    var d, e := DenoteMembers(ms), DenoteMembers(ns);
    forall k | k in d ensures k in e && d[k] == e[k] {
      var m := MemberOfKey(ms, k);
      var n :| n in ns && Alike(m, n);
      KeyMeaning(ms, m);
      KeyMeaning(ns, n);
    }
    forall k | k in e ensures k in d {
      var n := MemberOfKey(ns, k);
      var m :| m in ms && Alike(n, m);
      KeyMeaning(ms, m);
    }
  }

  lemma SelfAlike(m: Member, ns: seq<Member>)
    requires m in ns
    ensures HasAlike(m, ns)
  {
    assert Alike(m, m);
  }

  lemma PermutedMeansTheSame(ms: seq<Member>, ns: seq<Member>)
    requires Distinct(Keys(ms)) && Distinct(Keys(ns)) && multiset(ns) == multiset(ms)
    ensures DenoteMembers(ns) == DenoteMembers(ms)
  {
    hide *;
    forall m | m in ms ensures HasAlike(m, ns) {
      assert m in multiset(ns);
      SelfAlike(m, ns);
    }
    forall n | n in ns ensures HasAlike(n, ms) {
      assert n in multiset(ms);
      SelfAlike(n, ms);
    }
    AlikeMeanTheSame(ns, ms);
  }

  lemma ReversedMeansTheSame(ms: seq<Member>)
    requires IsJson(Obj(ms))
    ensures DenoteMembers(Reversed(ms)) == DenoteMembers(ms)
  {
    ReversedIsJson(ms);
    hide Distinct, Keys, DenoteMembers, Reversed;
    PermutedMeansTheSame(ms, Reversed(ms));
  }

  lemma ReplacedItem(le: Collation, items: seq<Value>, i: nat, x: Value)
    requires IsJson(Arr(items)) && i < |items|
    requires IsJson(x) && Denote(x) == Denote(items[i]) && Normal(le, x) != Normal(le, items[i])
    ensures var w := Arr(items[i := x]);
            IsJson(w) && Denote(w) == Denote(Arr(items)) && Normal(le, w) != Normal(le, Arr(items))
  {
    var changed := items[i := x];
    ItemsOf(items);
    ItemsOf(changed);
    ItemwiseMeaning(changed, items);
    ItemShows(le, changed, items, i);
  }

  lemma ItemShows(le: Collation, vs: seq<Value>, ws: seq<Value>, i: nat)
    requires i < |vs| == |ws| && Normal(le, vs[i]) != Normal(le, ws[i])
    ensures Normal(le, Arr(vs)) != Normal(le, Arr(ws))
  {
    assert NormalItems(le, vs)[i] != NormalItems(le, ws)[i];
  }

  lemma ReplacedMember(le: Collation, ms: seq<Member>, i: nat, x: Value)
    requires IsJson(Obj(ms)) && i < |ms|
    requires IsJson(x) && Denote(x) == Denote(ms[i].value) && Normal(le, x) != Normal(le, ms[i].value)
    ensures var w := Obj(ms[i := Member(ms[i].key, x)]);
            IsJson(w) && Denote(w) == Denote(Obj(ms)) && Normal(le, w) != Normal(le, Obj(ms))
  {
    var ns := ms[i := Member(ms[i].key, x)];
    assert Keys(ns) == Keys(ms);
    MembersOf(ms);
    MembersOf(ns);
    MemberwiseMeaning(ns, ms);
    if Normal(le, Obj(ns)) == Normal(le, Obj(ms)) {
      SameSortSameValues(le, ns, ms, i, i);
    }
  }

  /** A value holding a tie anywhere has a twin that means the same and reads differently. */
  lemma {:induction false} Twin(le: Collation, v: Value) returns (w: Value)
    requires IsJson(v) && !Separates(le, v)
    ensures IsJson(w) && Denote(w) == Denote(v) && Normal(le, w) != Normal(le, v)
    decreases v
  {
    match v
    case Arr(items) =>
      ItemsOf(items);
      var i := UnseparatedItem(le, items);
      var x := Twin(le, items[i]);
      ReplacedItem(le, items, i, x);
      w := Arr(items[i := x]);
    case Obj(ms) =>
      MembersOf(ms);
      if HasTie(le, ms) {
        var i, j :| 0 <= i < j < |ms| && Ties(le, ms[i].key, ms[j].key);
        InOrder(ms, i, j);
        ReversedMeansTheSame(ms);
        TieShowsOrder(le, ms, Reversed(ms), ms[i].key, ms[j].key);
        w := Obj(Reversed(ms));
      } else {
        var i := UnseparatedMember(le, ms);
        var x := Twin(le, ms[i].value);
        ReplacedMember(le, ms, i, x);
        w := Obj(ms[i := Member(ms[i].key, x)]);
      }
    case _ => assert false;
  }

  lemma {:induction false} UnseparatedItem(le: Collation, vs: seq<Value>) returns (i: nat)
    requires !SeparatesItems(le, vs)
    ensures i < |vs| && !Separates(le, vs[i])
  {
    if Separates(le, vs[0]) {
      i := UnseparatedItem(le, vs[1..]);
      i := i + 1;
    } else {
      i := 0;
    }
  }

  lemma {:induction false} UnseparatedMember(le: Collation, ms: seq<Member>) returns (i: nat)
    requires !SeparatesMembers(le, ms)
    ensures i < |ms| && !Separates(le, ms[i].value)
  {
    if Separates(le, ms[0].value) {
      i := UnseparatedMember(le, ms[1..]);
      i := i + 1;
    } else {
      i := 0;
    }
  }

  /**
   Every JSON value with the meaning of v reads as v does exactly when no object inside v, at any depth, has two keys
   that rank equal.
   */
  lemma AnyOrderExactly(le: Collation, v: Value)
    requires TotalPreorder(le) && IsJson(v)
    ensures TextIgnoresOrder(le, v) <==> Separates(le, v)
  {
    if Separates(le, v) {
      forall w | IsJson(w) && Denote(w) == Denote(v) ensures Canonicalize(le, w) == Canonicalize(le, v) {
        CanonicalComplete(le, v, w);
      }
    } else {
      var w := Twin(le, v);
      NormalShows(le, w, v);
    }
  }

  // ----- values that survive storage -----

  /** What JSON keeps of a payload: undefined members go, undefined items become null. */
  function Drop(v: Value): Value {
    match v
    case Undefined => Null
    case Arr(items) => Arr(DropItems(items))
    case Obj(ms) => Obj(DropMembers(ms))
    case _ => v
  }

  function DropItems(vs: seq<Value>): (r: seq<Value>)
    ensures |r| == |vs|
    ensures forall i :: 0 <= i < |vs| ==> r[i] == Drop(vs[i])
  {
    if |vs| == 0 then [] else [Drop(vs[0])] + DropItems(vs[1..])
  }

  function DropMembers(ms: seq<Member>): seq<Member> {
    if |ms| == 0 then []
    else if ms[0].value.Undefined? then DropMembers(ms[1..])
    else [Member(ms[0].key, Drop(ms[0].value))] + DropMembers(ms[1..])
  }

  /** `stored` is a JSON column value that reads back what was written as v, entries in any order. */
  ghost predicate StoredAs(v: Value, stored: Value) {
    IsJson(stored) && Denote(stored) == Denote(Drop(v))
  }

  lemma {:induction false} DropMembersAt(ms: seq<Member>, k: string)
    requires Distinct(Keys(ms))
    ensures k in DenoteMembers(DropMembers(ms)) <==>
            exists i :: 0 <= i < |ms| && ms[i].key == k && !ms[i].value.Undefined?
    ensures forall i :: 0 <= i < |ms| && ms[i].key == k && !ms[i].value.Undefined? ==>
              k in DenoteMembers(DropMembers(ms)) && DenoteMembers(DropMembers(ms))[k] == Denote(Drop(ms[i].value))
  {
    if |ms| != 0 {
      DistinctTail(ms);
      var t := ms[1..];
      DropMembersAt(t, k);
      assert forall i :: 0 < i < |ms| ==> ms[i] == t[i - 1];
      assert forall i :: 0 <= i < |t| ==> t[i] == ms[i + 1];
      if !ms[0].value.Undefined? {
        assert DropMembers(ms)[1..] == DropMembers(t);
      }
      if ms[0].key == k {
        assert forall i :: 0 <= i < |t| ==> t[i].key != k;
      }
    }
  }

  /** Storing the values of an object one by one stores the object. */
  lemma StoredMemberwise(ms: seq<Member>, ns: seq<Member>)
    requires Distinct(Keys(ms)) && |ms| == |ns| && Keys(ms) == Keys(ns)
    requires forall i :: 0 <= i < |ms| ==>
               !ms[i].value.Undefined? && Denote(ns[i].value) == Denote(Drop(ms[i].value))
    ensures DenoteMembers(ns) == DenoteMembers(DropMembers(ms))
  {
    var d, e := DenoteMembers(ns), DenoteMembers(DropMembers(ms));
    DenoteMembersAt(ns);
    assert forall i :: 0 <= i < |ms| ==> ms[i].key == Keys(ms)[i] == ns[i].key;
    forall k ensures k in d <==> k in e {
      DropMembersAt(ms, k);
      assert HasKey(ms, k) <==> HasKey(ns, k);
    }
    forall k | k in d ensures d[k] == e[k] {
      DropMembersAt(ms, k);
      var i :| 0 <= i < |ns| && ns[i].key == k;
      assert ms[i].key == k;
    }
  }

  lemma {:induction false} DropNothing(v: Value)
    requires NoUndefined(v)
    ensures Drop(v) == v
  {
    match v
    case Arr(items) =>
      ItemsOf(items);
      forall i | 0 <= i < |items| ensures Drop(items[i]) == items[i] {
        DropNothing(items[i]);
      }
    case Obj(ms) => DropNoMember(ms);
    case _ =>
  }

  lemma {:induction false} DropNoMember(ms: seq<Member>)
    requires NoMemberUndefined(ms)
    ensures DropMembers(ms) == ms
  {
    if |ms| != 0 {
      DropNothing(ms[0].value);
      DropNoMember(ms[1..]);
      assert ms == [ms[0]] + ms[1..];
    }
  }

  lemma {:induction false} UndefinedShows(le: Collation, v: Value)
    requires WellFormed(v) && !NoUndefined(v)
    ensures Denote(Normal(le, v)) != Denote(Drop(v))
  {
    match v
    case Arr(items) =>
      ItemsOf(items);
      var i :| 0 <= i < |items| && !NoUndefined(items[i]);
      UndefinedShows(le, items[i]);
      assert DenoteItems(NormalItems(le, items))[i] != DenoteItems(DropItems(items))[i];
    case Obj(ms) =>
      MembersOf(ms);
      var i :| 0 <= i < |ms| && !NoUndefined(ms[i].value);
      NormalObjectMeaning(le, ms);
      DropMembersAt(ms, ms[i].key);
      if ms[i].value.Undefined? {
        DistinctKeys(ms);
        assert ms[i].key !in DenoteMembers(DropMembers(ms));
      } else {
        UndefinedShows(le, ms[i].value);
      }
    case _ =>
  }

  lemma KeepsTiesMemberwise(le: Collation, ms: seq<Member>, ns: seq<Member>)
    requires Distinct(Keys(ms)) && |ms| == |ns| && Keys(ms) == Keys(ns)
    ensures KeepsTies(le, Obj(ms), Obj(ns)) <==>
            forall i :: 0 <= i < |ms| ==> KeepsTies(le, ms[i].value, ns[i].value)
  {
    DistinctKeys(ms);
    assert forall i :: 0 <= i < |ms| ==> ms[i].key == Keys(ms)[i] == ns[i].key;
    assert forall i :: 0 <= i < |ms| ==> Meet(ms, ns, i, i);
    assert forall i, j :: Meet(ms, ns, i, j) ==> i == j;
    assert KeepsPairs(le, ms, ns);
  }

  /**
   A payload hashes the same before it is written and after it is read back exactly when it holds no `undefined` and the
   column gives back tied keys in the order they were written.
   */
  lemma StorageKeepsText(le: Collation, v: Value, stored: Value)
    requires TotalPreorder(le) && WellFormed(v) && StoredAs(v, stored)
    ensures Canonicalize(le, v) == Canonicalize(le, stored) <==> NoUndefined(v) && KeepsTies(le, v, stored)
  {
    if NoUndefined(v) {
      DropNothing(v);
      SameTextExactly(le, v, stored);
    } else {
      UndefinedShows(le, v);
      if Canonicalize(le, v) == Canonicalize(le, stored) {
        SameTextSameNormal(le, v, stored);
        NormalMeansTheSame(le, stored);
      }
    }
  }
}

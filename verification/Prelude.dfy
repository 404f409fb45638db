/** Shared vocabulary: optional values, injective functions, and the text order SQL uses for ids. */
module Prelude {

  datatype Option<+T> = None | Some(value: T)

  ghost predicate Injective<A(!new), B(!new)>(f: A -> B) {
    forall a, b :: f(a) == f(b) ==> a == b
  }

  predicate Distinct<T(==)>(s: seq<T>) {
    forall i, j :: 0 <= i < j < |s| ==> s[i] != s[j]
  }

  lemma HasElement<T(!new)>(s: seq<T>)
    ensures |s| != 0 ==> exists x :: x in s
  {
    assert |s| != 0 ==> s[0] in s;
  }

  // ----- where clauses -----

  function Filter<T(!new)>(p: T -> bool, s: seq<T>): (r: seq<T>)
    ensures |r| <= |s|
    ensures forall x :: x in r <==> x in s && p(x)
  {
    if |s| == 0 then []
    else
      assert s == [s[0]] + s[1..];
      if p(s[0]) then [s[0]] + Filter(p, s[1..]) else Filter(p, s[1..])
  }

  function Both<T>(p: T -> bool, q: T -> bool): T -> bool {
    x => p(x) && q(x)
  }

  lemma FilterAppend<T(!new)>(p: T -> bool, s: seq<T>, x: T)
    ensures Filter(p, s + [x]) == if p(x) then Filter(p, s) + [x] else Filter(p, s)
  {
    if |s| == 0 {
      assert s + [x] == [x] && [x][1..] == [];
    } else {
      assert (s + [x])[1..] == s[1..] + [x];
      FilterAppend(p, s[1..], x);
    }
  }

  lemma {:induction false} FilterConcat<T(!new)>(p: T -> bool, s: seq<T>, t: seq<T>)
    ensures Filter(p, s + t) == Filter(p, s) + Filter(p, t)
    decreases |t|
  {
    if |t| == 0 {
      assert s + t == s;
    } else {
      var last := |t| - 1;
      assert s + t == (s + t[..last]) + [t[last]] && t == t[..last] + [t[last]];
      FilterConcat(p, s, t[..last]);
      FilterAppend(p, s + t[..last], t[last]);
      FilterAppend(p, t[..last], t[last]);
    }
  }

  lemma {:induction false} FilterAll<T(!new)>(p: T -> bool, s: seq<T>)
    requires forall x :: x in s ==> p(x)
    ensures Filter(p, s) == s
  {
    if |s| != 0 {
      assert s == [s[0]] + s[1..];
      FilterAll(p, s[1..]);
    }
  }

  lemma FilterNone<T(!new)>(p: T -> bool, s: seq<T>)
    requires forall x :: x in s ==> !p(x)
    ensures Filter(p, s) == []
  {
    HasElement(Filter(p, s));
  }

  lemma FilterTwice<T(!new)>(p: T -> bool, q: T -> bool, s: seq<T>)
    ensures Filter(Both(p, q), s) == Filter(q, Filter(p, s))
  {
    if |s| != 0 {
      FilterTwice(p, q, s[1..]);
      var f := Filter(p, s[1..]);
      assert ([s[0]] + f)[1..] == f;
    }
  }

  /** Strict lexicographic order on text: the order of `id::text <` and of `order by id`. */
  predicate TextLess(a: string, b: string) {
    |b| != 0 && (|a| == 0 || a[0] < b[0] || (a[0] == b[0] && TextLess(a[1..], b[1..])))
  }

  lemma {:induction false} TextLessTransitive(a: string, b: string, c: string)
    requires TextLess(a, b) && TextLess(b, c)
    ensures TextLess(a, c)
  {
    if |a| != 0 && a[0] == b[0] == c[0] {
      TextLessTransitive(a[1..], b[1..], c[1..]);
    }
  }

  lemma {:induction false} TextLessIrreflexive(a: string)
    ensures !TextLess(a, a)
  {
    if |a| != 0 {
      TextLessIrreflexive(a[1..]);
    }
  }

  lemma {:induction false} TextLessTotal(a: string, b: string)
    ensures a == b || TextLess(a, b) || TextLess(b, a)
  {
    if |a| != 0 && |b| != 0 && a[0] == b[0] {
      TextLessTotal(a[1..], b[1..]);
      assert a == [a[0]] + a[1..] && b == [b[0]] + b[1..];
    }
  }

  // ----- searching text -----

  /** The characters \s matches and trim removes. */
  predicate IsSpace(c: char) {
    || '\t' <= c <= '\r' || c == ' ' || c == '\U{A0}' || c == '\U{1680}' || '\U{2000}' <= c <= '\U{200A}'
    || c == '\U{2028}' || c == '\U{2029}' || c == '\U{202F}' || c == '\U{205F}' || c == '\U{3000}' || c == '\U{FEFF}'
  }

  /** ECMAScript's WhiteSpace and LineTerminator, one by one. */
  const SPACES := {'\t', '\n', '\U{B}', '\U{C}', '\r', ' ', '\U{A0}', '\U{1680}',
                   '\U{2000}', '\U{2001}', '\U{2002}', '\U{2003}', '\U{2004}', '\U{2005}', '\U{2006}', '\U{2007}',
                   '\U{2008}', '\U{2009}', '\U{200A}', '\U{2028}', '\U{2029}', '\U{202F}', '\U{205F}', '\U{3000}',
                   '\U{FEFF}'}

  lemma SpacesExactly()
    ensures forall c :: IsSpace(c) <==> c in SPACES
  {
  }

  /** String.indexOf for one character: -1 when it does not occur. */
  function IndexOf(s: string, c: char): (i: int)
    ensures -1 <= i < |s|
    ensures i >= 0 ==> s[i] == c && c !in s[..i]
    ensures i < 0 <==> c !in s
  {
    if |s| == 0 then -1
    else
      assert s == [s[0]] + s[1..];
      if s[0] == c then 0 else
      var rest := IndexOf(s[1..], c);
      assert rest >= 0 ==> s[..rest + 1] == [s[0]] + s[1..][..rest];
      if rest < 0 then -1 else rest + 1
  }

  lemma {:induction false} IndexOfFirst(before: string, c: char, after: string)
    requires c !in before
    ensures IndexOf(before + [c] + after, c) == |before|
  {
    if |before| == 0 {
      assert before + [c] + after == [c] + after;
    } else {
      IndexOfFirst(before[1..], c, after);
      assert (before + [c] + after)[1..] == before[1..] + [c] + after;
    }
  }

  /** A text cut at the first occurrence of a character is cut in one way only. */
  lemma CutOnce(x: string, y: string, c: char, s: string, t: string)
    requires c !in x && c !in y && x + [c] + s == y + [c] + t
    ensures x == y && s == t
  {
    IndexOfFirst(x, c, s);
    IndexOfFirst(y, c, t);
    assert x == (x + [c] + s)[..|x|] && y == (y + [c] + t)[..|y|];
    assert s == (x + [c] + s)[|x| + 1..] && t == (y + [c] + t)[|y| + 1..];
  }

  function TrimStart(s: string): string {
    if |s| != 0 && IsSpace(s[0]) then TrimStart(s[1..]) else s
  }

  function TrimEnd(s: string): string {
    if |s| != 0 && IsSpace(s[|s| - 1]) then TrimEnd(s[..|s| - 1]) else s
  }

  function Trim(s: string): string {
    TrimEnd(TrimStart(s))
  }

  /** Neither the first nor the last character is whitespace. */
  predicate Trimmed(s: string) {
    |s| != 0 ==> !IsSpace(s[0]) && !IsSpace(s[|s| - 1])
  }

  lemma TrimKeeps(s: string)
    requires Trimmed(s)
    ensures Trim(s) == s
    ensures Trim(" " + s) == s
  {
    assert (" " + s)[1..] == s;
    assert TrimStart(" " + s) == TrimStart(s);
  }

  // ----- splitting and joining text -----

  function Join(parts: seq<string>, separator: string): string {
    if |parts| == 0 then ""
    else if |parts| == 1 then parts[0]
    else parts[0] + separator + Join(parts[1..], separator)
  }

  lemma JoinStep(separator: string, part: string, rest: seq<string>)
    requires |rest| != 0
    ensures Join([part] + rest, separator) == part + separator + Join(rest, separator)
  {
    assert ([part] + rest)[1..] == rest;
  }

  function Split(s: string, c: char): (parts: seq<string>)
    ensures |parts| >= 1
    decreases |s|
  {
    var i := IndexOf(s, c);
    if i < 0 then [s] else [s[..i]] + Split(s[i + 1..], c)
  }

  lemma SplitFirst(first: string, c: char, rest: string)
    requires c !in first
    ensures Split(first + [c] + rest, c) == [first] + Split(rest, c)
  {
    IndexOfFirst(first, c, rest);
    var whole := first + [c] + rest;
    assert whole[..|first|] == first && whole[|first| + 1..] == rest;
  }

  lemma {:induction false} JoinSplit(s: string, c: char)
    ensures Join(Split(s, c), [c]) == s
    decreases |s|
  {
    var i := IndexOf(s, c);
    if i >= 0 {
      JoinSplit(s[i + 1..], c);
      JoinStep([c], s[..i], Split(s[i + 1..], c));
      assert s == s[..i] + [c] + s[i + 1..];
    }
  }

  // ----- JavaScript objects -----

  const PROTO := "__proto__"

  /** object[key] = value on an object literal: naming the prototype adds no member. */
  function Assign<V>(m: map<string, V>, key: string, value: V): map<string, V> {
    if key == PROTO then m else m[key := value]
  }

  lemma AssignExactly<V>(m: map<string, V>, key: string, value: V)
    ensures Assign(m, "__proto__", value) == m
    ensures key != "__proto__" ==> Assign(m, key, value) == m[key := value]
  {
  }
}

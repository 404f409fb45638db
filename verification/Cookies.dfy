/** Cookie text: percent encoding, the two Set-Cookie printers, and the two Cookie header readers. */
module Cookies {
  import opened Prelude
  import opened Base64
  import Utf8

  // ----- percent encoding -----

  predicate Unreserved(c: char) {
    || 'A' <= c <= 'Z' || 'a' <= c <= 'z' || '0' <= c <= '9'
    || c in {'-', '_', '.', '!', '~', '*', '\'', '(', ')'}
  }

  function UpperHex(n: nat): char
    requires n < 16
  {
    if n < 10 then '0' + n as char else 'A' + (n - 10) as char
  }

  function HexDigit(c: char): Option<nat> {
    if '0' <= c <= '9' then Some(c as int - '0' as int)
    else if 'A' <= c <= 'F' then Some(c as int - 'A' as int + 10)
    else if 'a' <= c <= 'f' then Some(c as int - 'a' as int + 10)
    else None
  }

  function Percent(bytes: seq<Byte>): (r: string)
    ensures |r| == 3 * |bytes|
  {
    if |bytes| == 0 then "" else ['%', UpperHex(bytes[0] / 16), UpperHex(bytes[0] % 16)] + Percent(bytes[1..])
  }

  function EncodeURIComponent(s: string): string {
    if |s| == 0 then ""
    else (if Unreserved(s[0]) then [s[0]] else Percent(Utf8.EncodeChar(s[0]))) + EncodeURIComponent(s[1..])
  }

  // ----- the encoded text, exactly -----

  lemma {:induction false} EncodeConcat(s: string, t: string)
    ensures EncodeURIComponent(s + t) == EncodeURIComponent(s) + EncodeURIComponent(t)
  {
    if |s| == 0 {
      assert s + t == t;
    } else {
      assert (s + t)[1..] == s[1..] + t;
      EncodeConcat(s[1..], t);
    }
  }

  /** ASCII letters, digits and nine marks stand for themselves; any other character is its UTF-8 bytes in percents. */
  lemma EncodedCharacter(c: char)
    ensures EncodeURIComponent([c]) ==
            if 65 <= c as int <= 90 || 97 <= c as int <= 122 || 48 <= c as int <= 57
               || c in ['-', '_', '.', '!', '~', '*', '\'', '(', ')']
            then [c] else Percent(Utf8.EncodeChar(c))
  {
    assert [c][1..] == [];
  }

  /** Each byte is a percent sign and two capital hexadecimal digits. */
  lemma {:induction false} PercentText(bytes: seq<Byte>, i: nat)
    requires i < |bytes|
    ensures Percent(bytes)[3 * i] == '%'
    ensures Percent(bytes)[3 * i + 1] == "0123456789ABCDEF"[bytes[i] / 16]
    ensures Percent(bytes)[3 * i + 2] == "0123456789ABCDEF"[bytes[i] % 16]
  {
    if i == 0 {
      CapitalHex(bytes[0] / 16);
      CapitalHex(bytes[0] % 16);
    } else {
      PercentText(bytes[1..], i - 1);
    }
  }

  lemma CapitalHex(n: nat)
    requires n < 16
    ensures UpperHex(n) == "0123456789ABCDEF"[n]
  {
  }

  /** Hexadecimal digits are read in either case. */
  lemma HexDigitExactly(c: char)
    ensures HexDigit(c) == if 48 <= c as int <= 57 then Some(c as int - 48)
                           else if 65 <= c as int <= 70 then Some(c as int - 55)
                           else if 97 <= c as int <= 102 then Some(c as int - 87)
                           else None
  {
  }

  /** The first n percent-encoded bytes of a text, when it starts with that many. */
  function PercentBytes(t: string, n: nat): (r: Option<seq<Byte>>)
    ensures r.Some? ==> |t| >= 3 * n && |r.value| == n
    decreases n
  {
    if n == 0 then Some([])
    else if |t| < 3 || t[0] != '%' || HexDigit(t[1]).None? || HexDigit(t[2]).None? then None
    else
      var rest := PercentBytes(t[3..], n - 1);
      var b: Byte := HexDigit(t[1]).value % 16 * 16 + HexDigit(t[2]).value % 16;
      if rest.None? then None else Some([b] + rest.value)
  }

  /** None where decodeURIComponent throws. */
  function DecodeURIComponent(t: string): Option<string>
    decreases |t|
  {
    if |t| == 0 then Some("")
    else if t[0] != '%' then Prepend(t[0], DecodeURIComponent(t[1..]))
    else
      var lead := PercentBytes(t, 1);
      if lead.None? || Utf8.LeadLength(lead.value[0]) == 0 then None else
      var n := Utf8.LeadLength(lead.value[0]);
      var bytes := PercentBytes(t, n);
      if bytes.None? || Utf8.DecodeChar(bytes.value).None? then None
      else Prepend(Utf8.DecodeChar(bytes.value).value, DecodeURIComponent(t[3 * n..]))
  }

  function Prepend(c: char, r: Option<string>): Option<string> {
    if r.None? then None else Some([c] + r.value)
  }

  /** The i-th percent sign stands where it must, with two hexadecimal digits behind it. */
  predicate PercentAt(t: string, i: nat) {
    |t| >= 3 * i + 3 && t[3 * i] == '%' && HexDigit(t[3 * i + 1]).Some? && HexDigit(t[3 * i + 2]).Some?
  }

  function ByteAt(t: string, i: nat): int
    requires PercentAt(t, i)
  {
    16 * HexDigit(t[3 * i + 1]).value + HexDigit(t[3 * i + 2]).value
  }

  lemma PercentShift(t: string, i: nat)
    requires |t| >= 3
    ensures PercentAt(t[3..], i) <==> PercentAt(t, i + 1)
    ensures PercentAt(t[3..], i) ==> ByteAt(t[3..], i) == ByteAt(t, i + 1)
  {
    hide HexDigit;
    assert |t| >= 3 * i + 6 ==> t[3..][3 * i] == t[3 * (i + 1)] && t[3..][3 * i + 1] == t[3 * (i + 1) + 1] &&
                                t[3..][3 * i + 2] == t[3 * (i + 1) + 2];
  }

  lemma FirstPercent(t: string, n: nat)
    requires n > 0
    ensures PercentBytes(t, n).Some? <==> PercentAt(t, 0) && PercentBytes(t[3..], n - 1).Some?
    ensures PercentBytes(t, n).Some? ==>
              PercentBytes(t, n).value == [ByteAt(t, 0)] + PercentBytes(t[3..], n - 1).value
  {
    if PercentAt(t, 0) {
      HexDigitExactly(t[1]);
      HexDigitExactly(t[2]);
    }
    hide HexDigit;
  }

  /** A text gives n bytes exactly when it starts with n percent signs, two hexadecimal digits behind each. */
  lemma {:induction false} PercentBytesExactly(t: string, n: nat)
    ensures PercentBytes(t, n).Some? <==> forall i :: 0 <= i < n ==> PercentAt(t, i)
    ensures PercentBytes(t, n).Some? ==> forall i :: 0 <= i < n ==> PercentBytes(t, n).value[i] == ByteAt(t, i)
    decreases n
  {
    if n != 0 {
      FirstPercent(t, n);
      if PercentAt(t, 0) {
        PercentBytesExactly(t[3..], n - 1);
        forall i | 0 <= i < n - 1
          ensures PercentAt(t[3..], i) <==> PercentAt(t, i + 1)
          ensures PercentAt(t, i + 1) ==> ByteAt(t[3..], i) == ByteAt(t, i + 1)
        {
          PercentShift(t, i);
        }
        hide PercentAt, PercentBytes, ByteAt;
        assert forall i :: 0 < i < n ==> (PercentAt(t, i) <==> PercentAt(t[3..], i - 1));
        assert forall i :: 0 <= i < n - 1 && PercentAt(t, i + 1) ==> PercentAt(t[3..], i);
      }
    }
  }

  lemma HexBack(n: nat)
    requires n < 16
    ensures HexDigit(UpperHex(n)) == Some(n)
  {
  }

  lemma PercentStep(x: char, y: char, t: string, n: nat)
    requires n > 0 && HexDigit(x).Some? && HexDigit(y).Some? && PercentBytes(t, n - 1).Some?
    ensures PercentBytes(['%', x, y] + t, n) ==
            Some([HexDigit(x).value % 16 * 16 + HexDigit(y).value % 16] + PercentBytes(t, n - 1).value)
  {
    hide HexDigit;
    assert (['%', x, y] + t)[3..] == t;
  }

  lemma Nibbles(b: Byte)
    ensures 0 <= b / 16 < 16 && b / 16 % 16 * 16 + b % 16 % 16 == b
  {
  }

  lemma PercentByteFirst(b: Byte, t: string, n: nat)
    requires n > 0 && PercentBytes(t, n - 1).Some?
    ensures PercentBytes(['%', UpperHex(b / 16), UpperHex(b % 16)] + t, n) == Some([b] + PercentBytes(t, n - 1).value)
  {
    HexBack(b / 16);
    HexBack(b % 16);
    Nibbles(b);
    hide HexDigit, UpperHex, PercentBytes;
    PercentStep(UpperHex(b / 16), UpperHex(b % 16), t, n);
  }

  lemma {:induction false} PercentBytesOf(bytes: seq<Byte>, rest: string, n: nat)
    requires n <= |bytes|
    ensures PercentBytes(Percent(bytes) + rest, n) == Some(bytes[..n])
    decreases |bytes|
  {
    if n != 0 {
      PercentBytesOf(bytes[1..], rest, n - 1);
      PercentByteFirst(bytes[0], Percent(bytes[1..]) + rest, n);
      assert Percent(bytes) + rest ==
        ['%', UpperHex(bytes[0] / 16), UpperHex(bytes[0] % 16)] + (Percent(bytes[1..]) + rest);
      assert bytes[..n] == [bytes[0]] + bytes[1..][..n - 1];
    }
  }

  lemma DecodePercentChar(c: char, rest: string)
    ensures DecodeURIComponent(Percent(Utf8.EncodeChar(c)) + rest) == Prepend(c, DecodeURIComponent(rest))
  {
    var bytes := Utf8.EncodeChar(c);
    var t := Percent(bytes) + rest;
    Utf8.DecodeEncodeChar(c, []);
    assert bytes + [] == bytes && bytes[..|bytes|] == bytes;
    PercentBytesOf(bytes, rest, 1);
    PercentBytesOf(bytes, rest, |bytes|);
    assert t[0] == '%' && t[3 * |bytes|..] == rest;
  }

  /** decodeURIComponent undoes encodeURIComponent. */
  lemma {:induction false} DecodeEncode(s: string)
    ensures DecodeURIComponent(EncodeURIComponent(s)) == Some(s)
  {
    if |s| != 0 {
      var rest := EncodeURIComponent(s[1..]);
      DecodeEncode(s[1..]);
      if Unreserved(s[0]) {
        assert ([s[0]] + rest)[1..] == rest;
      } else {
        DecodePercentChar(s[0], rest);
      }
      assert s == [s[0]] + s[1..];
    }
  }

  predicate Safe(c: char) {
    Unreserved(c) || c == '%'
  }

  lemma {:induction false} PercentSafe(bytes: seq<Byte>)
    ensures forall i :: 0 <= i < |Percent(bytes)| ==> Safe(Percent(bytes)[i])
  {
    if |bytes| != 0 {
      PercentSafe(bytes[1..]);
    }
  }

  lemma {:induction false} EncodedSafe(s: string)
    ensures forall i :: 0 <= i < |EncodeURIComponent(s)| ==> Safe(EncodeURIComponent(s)[i])
  {
    if |s| != 0 {
      EncodedSafe(s[1..]);
      PercentSafe(Utf8.EncodeChar(s[0]));
    }
  }

  // ----- Set-Cookie -----

  datatype Options = Options(path: Option<string>, httpOnly: bool, secure: bool, sameSite: Option<string>,
      maxAge: Option<real>)

  function Decimal(n: nat): string {
    if n < 10 then ['0' + n as char] else Decimal(n / 10) + ['0' + (n % 10) as char]
  }

  /** Whole seconds, none for a negative age. */
  function MaxAgeSeconds(age: real): (seconds: nat)
    ensures age < 0.0 ==> seconds == 0
    ensures 0.0 <= age ==> seconds as real <= age < seconds as real + 1.0
  {
    if age.Floor < 0 then 0 else age.Floor
  }

  function Flags(o: Options): seq<string> {
    ["Path=" + if o.path.Some? then o.path.value else "/"]
    + (if o.httpOnly then ["HttpOnly"] else [])
    + (if o.secure then ["Secure"] else [])
  }

  function Attributes(o: Options): seq<string> {
    Flags(o)
    + (if o.sameSite.Some? then ["SameSite=" + o.sameSite.value] else [])
    + (if o.maxAge.Some? then ["Max-Age=" + Decimal(MaxAgeSeconds(o.maxAge.value))] else [])
  }

  datatype Pair = Pair(name: string, raw: string)

  function PairText(p: Pair): string {
    p.name + "=" + p.raw
  }

  function Spaced(parts: seq<string>): (r: seq<string>)
    ensures |r| == |parts| && forall i :: 0 <= i < |r| ==> r[i] == " " + parts[i]
  {
    seq(|parts|, i requires 0 <= i < |parts| => " " + parts[i])
  }

  /** Text joined by "; " splits at the semicolons into the parts, all but the first behind a space. */
  lemma {:induction false} SplitJoined(parts: seq<string>)
    requires |parts| > 0 && forall i :: 0 <= i < |parts| ==> ';' !in parts[i]
    ensures Split(Join(parts, "; "), ';') == [parts[0]] + Spaced(parts[1..])
  {
    SplitPadded("", parts);
    assert "" + Join(parts, "; ") == Join(parts, "; ") && "" + parts[0] == parts[0];
  }

  lemma JoinOne(parts: seq<string>)
    requires |parts| == 1
    ensures Join(parts, "; ") == parts[0]
  {
  }

  /** Cutting the first part off the joined text. */
  lemma CutFirst(pad: string, part: string, rest: string)
    requires ';' !in pad && ';' !in part
    ensures Split(pad + (part + "; " + rest), ';') == [pad + part] + Split(" " + rest, ';')
  {
    hide Split;
    assert pad + (part + "; " + rest) == (pad + part) + [';'] + (" " + rest);
    SplitFirst(pad + part, ';', " " + rest);
  }

  lemma SplitWhole(text: string)
    requires ';' !in text
    ensures Split(text, ';') == [text]
  {
  }

  lemma SpacedCons(parts: seq<string>)
    requires |parts| > 0
    ensures Spaced(parts) == [" " + parts[0]] + Spaced(parts[1..])
  {
  }

  lemma {:induction false} SplitPadded(pad: string, parts: seq<string>)
    requires |parts| > 0 && forall i :: 0 <= i < |parts| ==> ';' !in parts[i]
    requires ';' !in pad
    ensures Split(pad + Join(parts, "; "), ';') == [pad + parts[0]] + Spaced(parts[1..])
    decreases |parts|
  {
    hide Join, Split, Spaced;
    var tail := parts[1..];
    if |parts| == 1 {
      JoinOne(parts);
      SplitWhole(pad + parts[0]);
      assert Spaced(tail) == [];
    } else {
      JoinStep("; ", parts[0], tail);
      assert parts == [parts[0]] + tail;
      CutFirst(pad, parts[0], Join(tail, "; "));
      assert forall i :: 0 <= i < |tail| ==> tail[i] == parts[i + 1];
      SplitPadded(" ", tail);
      SpacedCons(tail);
    }
  }

  /**
   serializeCookie of both programs: a reader that splits at semicolons gets the pair back first, then the attributes.
   */
  method SerializeCookie(name: string, value: string, options: Options) returns (text: string)
    ensures text == Join([PairText(Pair(name, EncodeURIComponent(value)))] + Attributes(options), "; ")
    ensures ';' !in name && ClearOfSemicolons(options) ==>
              Split(text, ';') == [PairText(Pair(name, EncodeURIComponent(value)))] + Spaced(Attributes(options))
  {
    hide EncodeURIComponent, Decimal, Join, Split;
    var parts := [name + "=" + EncodeURIComponent(value)];
    parts := parts + ["Path=" + if options.path.Some? then options.path.value else "/"];
    if options.httpOnly {
      parts := parts + ["HttpOnly"];
    }
    if options.secure {
      parts := parts + ["Secure"];
    }
    assert parts == [PairText(Pair(name, EncodeURIComponent(value)))] + Flags(options);
    if options.sameSite.Some? {
      parts := parts + ["SameSite=" + options.sameSite.value];
    }
    if options.maxAge.Some? {
      parts := parts + ["Max-Age=" + Decimal(MaxAgeSeconds(options.maxAge.value))];
    }
    text := Join(parts, "; ");
    assert parts == [PairText(Pair(name, EncodeURIComponent(value)))] + Attributes(options);
    if ';' !in name && ClearOfSemicolons(options) {
      PartsSplit(name, value, options, parts);
    }
  }

  predicate ClearOfSemicolons(o: Options) {
    && (o.path.Some? ==> ';' !in o.path.value)
    && (o.sameSite.Some? ==> ';' !in o.sameSite.value)
  }

  lemma PartsSplit(name: string, value: string, o: Options, parts: seq<string>)
    requires ';' !in name
    requires ClearOfSemicolons(o)
    requires parts == [PairText(Pair(name, EncodeURIComponent(value)))] + Attributes(o)
    ensures Split(Join(parts, "; "), ';') == [PairText(Pair(name, EncodeURIComponent(value)))] + Spaced(Attributes(o))
  {
    NoSemicolons(name, value, o, parts);
    SplitJoined(parts);
    assert parts[1..] == Attributes(o);
  }

  lemma {:induction false} DecimalDigits(n: nat)
    ensures forall i :: 0 <= i < |Decimal(n)| ==> '0' <= Decimal(n)[i] <= '9'
  {
    if n >= 10 {
      DecimalDigits(n / 10);
    }
  }

  lemma NoSemicolons(name: string, value: string, o: Options, parts: seq<string>)
    requires ';' !in name
    requires ClearOfSemicolons(o)
    requires parts == [PairText(Pair(name, EncodeURIComponent(value)))] + Attributes(o)
    ensures forall i :: 0 <= i < |parts| ==> ';' !in parts[i]
  {
    EncodedSafe(value);
    assert ';' !in EncodeURIComponent(value);
    if o.maxAge.Some? {
      DecimalDigits(MaxAgeSeconds(o.maxAge.value));
    }
    assert ';' !in parts[0];
    forall i | 0 < i < |parts| ensures ';' !in parts[i] {
      assert parts[i] == Attributes(o)[i - 1];
    }
  }

  // ----- Cookie -----

  function DecodeOrRaw(v: string): string {
    var d := DecodeURIComponent(v);
    if d.Some? then d.value else v
  }

  /** One item as the example BFF reads it: trimmed, then cut by splitting at every "=" and joining the rest again. */
  function ReadItem(item: string): Option<(string, string)> {
    var parts := Split(Trim(item), '=');
    if parts[0] == "" then None else Some((parts[0], DecodeOrRaw(Join(parts[1..], "="))))
  }

  /** One pair as the server reads it: cut at the first "=", then both halves trimmed. */
  function ReadPair(pair: string): Option<(string, string)> {
    var index := IndexOf(pair, '=');
    if index <= 0 then None else
    var key, value := Trim(pair[..index]), Trim(pair[index + 1..]);
    if key == "" then None else Some((key, DecodeOrRaw(value)))
  }

  /** The object a header loop fills. */
  function Collect(read: string -> Option<(string, string)>, items: seq<string>): map<string, string> {
    if |items| == 0 then map[]
    else
      var m := Collect(read, items[..|items| - 1]);
      var r := read(items[|items| - 1]);
      if r.None? then m else Assign(m, r.value.0, r.value.1)
  }

  method ParseCookies(header: Option<string>) returns (cookies: map<string, string>)
    ensures cookies == Collect(ReadItem, if header.Some? then Split(header.value, ';') else [])
  {
    hide DecodeURIComponent, Trim, Collect;
    cookies := map[];
    EmptyItemIsSkipped();
    NothingCollected(ReadItem);
    if header.None? || header.value == "" {
      return;
    }
    var items := Split(header.value, ';');
    assert items[..0] == [];
    for i := 0 to |items|
      invariant cookies == Collect(ReadItem, items[..i])
    {
      CollectNext(ReadItem, items, i);
      var parts := Split(Trim(items[i]), '=');
      var rawName := parts[0];
      if rawName == "" {
        continue;
      }
      var value := Join(parts[1..], "=");
      var decoded := DecodeURIComponent(value);
      if decoded.Some? {
        cookies := Assign(cookies, rawName, decoded.value);
      } else {
        cookies := Assign(cookies, rawName, value);
      }
    }
    assert items[..|items|] == items;
  }

  lemma CollectNext(read: string -> Option<(string, string)>, items: seq<string>, i: nat)
    requires i < |items|
    ensures Collect(read, items[..i + 1]) ==
            var r := read(items[i]);
            if r.None? then Collect(read, items[..i]) else Assign(Collect(read, items[..i]), r.value.0, r.value.1)
  {
    assert items[..i + 1][..i] == items[..i];
  }

  method ParseCookieHeader(header: Option<string>) returns (cookies: map<string, string>)
    ensures cookies == Collect(ReadPair, if header.Some? then Split(header.value, ';') else [])
  {
    hide DecodeURIComponent, Trim, Collect;
    cookies := map[];
    EmptyItemIsSkipped();
    NothingCollected(ReadPair);
    if header.None? || header.value == "" {
      return;
    }
    var pairs := Split(header.value, ';');
    assert pairs[..0] == [];
    for i := 0 to |pairs|
      invariant cookies == Collect(ReadPair, pairs[..i])
    {
      CollectNext(ReadPair, pairs, i);
      var index := IndexOf(pairs[i], '=');
      if index <= 0 {
        continue;
      }
      var key := Trim(pairs[i][..index]);
      var value := Trim(pairs[i][index + 1..]);
      if key == "" {
        continue;
      }
      cookies := Assign(cookies, key, DecodeOrRaw(value));
    }
    assert pairs[..|pairs|] == pairs;
  }

  lemma EmptyItemIsSkipped()
    ensures ReadItem("").None? && ReadPair("").None?
  {
    assert Trim("") == "";
  }

  lemma NothingCollected(read: string -> Option<(string, string)>)
    requires read("").None?
    ensures Collect(read, []) == map[] == Collect(read, Split("", ';'))
  {
    assert Split("", ';') == [""] && [""][..0] == [];
  }

  /** A pair as cookie syntax allows it: a name, no "=" or ";" in it, no ";" in the value, no outer whitespace. */
  predicate WellFormed(p: Pair) {
    p.name != "" && '=' !in p.name && ';' !in p.name && Trimmed(p.name) && ';' !in p.raw && Trimmed(p.raw)
  }

  /** The user agent's Cookie header (section 4.2.1 of RFC 6265). */
  function CookieHeader(pairs: seq<Pair>): string {
    Join(Texts(pairs), "; ")
  }

  function Texts(pairs: seq<Pair>): (r: seq<string>)
    ensures |r| == |pairs| && forall i :: 0 <= i < |r| ==> r[i] == PairText(pairs[i])
  {
    seq(|pairs|, i requires 0 <= i < |pairs| => PairText(pairs[i]))
  }

  /** What a header says: each name has its last value, decoded where it decodes, and the prototype's name has none. */
  predicate Says(cookies: map<string, string>, pairs: seq<Pair>) {
    && (forall name :: name in cookies ==> name != PROTO && exists i :: 0 <= i < |pairs| && pairs[i].name == name)
    && (forall i :: 0 <= i < |pairs| && pairs[i].name != PROTO && LastOfItsName(pairs, i) ==>
          pairs[i].name in cookies && cookies[pairs[i].name] == DecodeOrRaw(pairs[i].raw))
  }

  predicate LastOfItsName(pairs: seq<Pair>, i: nat)
    requires i < |pairs|
  {
    forall j :: i < j < |pairs| ==> pairs[j].name != pairs[i].name
  }

  ghost predicate Reads(read: string -> Option<(string, string)>, item: string, p: Pair) {
    read(item) == Some((p.name, DecodeOrRaw(p.raw)))
  }

  lemma ReadsItem(pad: string, p: Pair)
    requires WellFormed(p) && (pad == "" || pad == " ")
    ensures Reads(ReadItem, pad + PairText(p), p)
  {
    hide Split, Join, Trim, DecodeOrRaw;
    var t := PairText(p);
    assert t == p.name + ['='] + p.raw;
    assert Trim(pad + t) == t by {
      assert "" + t == t && t[0] == p.name[0];
      TrimKeeps(t);
    }
    SplitFirst(p.name, '=', p.raw);
    JoinSplit(p.raw, '=');
    assert Split(t, '=')[1..] == Split(p.raw, '=');
  }

  lemma ReadsPair(pad: string, p: Pair)
    requires WellFormed(p) && (pad == "" || pad == " ")
    ensures Reads(ReadPair, pad + PairText(p), p)
  {
    hide Trim, DecodeOrRaw, IndexOf;
    var padded := pad + p.name;
    assert Trim(padded) == p.name by {
      assert "" + p.name == p.name;
      TrimKeeps(p.name);
    }
    TrimKeeps(p.raw);
    assert pad + PairText(p) == padded + ['='] + p.raw;
    CutAtEquals(padded, p.raw);
  }

  lemma CutAtEquals(before: string, after: string)
    requires '=' !in before && before != ""
    ensures var t := before + ['='] + after;
            ReadPair(t) == if Trim(before) == "" then None else Some((Trim(before), DecodeOrRaw(Trim(after))))
  {
    hide Trim, DecodeOrRaw;
    var t := before + ['='] + after;
    IndexOfFirst(before, '=', after);
    assert t[..|before|] == before && t[|before| + 1..] == after;
  }

  lemma SaysOneMore(before: map<string, string>, init: seq<Pair>, last: Pair)
    requires Says(before, init)
    ensures Says(Assign(before, last.name, DecodeOrRaw(last.raw)), init + [last])
  {
    hide DecodeOrRaw;
    var pairs := init + [last];
    var after := Assign(before, last.name, DecodeOrRaw(last.raw));
    forall name | name in after ensures name != PROTO && exists i :: 0 <= i < |pairs| && pairs[i].name == name {
      if name in before {
        var i :| 0 <= i < |init| && init[i].name == name;
        assert pairs[i].name == name;
      } else {
        assert pairs[|init|].name == name;
      }
    }
    forall i | 0 <= i < |pairs| && pairs[i].name != PROTO && LastOfItsName(pairs, i)
      ensures pairs[i].name in after && after[pairs[i].name] == DecodeOrRaw(pairs[i].raw)
    {
      if i < |init| {
        assert pairs[i] == init[i] && pairs[|init|].name != init[i].name;
        assert forall j :: i < j < |init| ==> init[j] == pairs[j];
        assert LastOfItsName(init, i);
      }
    }
  }

  lemma {:induction false} CollectSays(read: string -> Option<(string, string)>, items: seq<string>, pairs: seq<Pair>)
    requires |items| == |pairs| && forall i :: 0 <= i < |items| ==> Reads(read, items[i], pairs[i])
    ensures Says(Collect(read, items), pairs)
    decreases |items|
  {
    if |items| != 0 {
      hide Says, DecodeOrRaw, Collect, Assign;
      var last := |items| - 1;
      CollectNext(read, items, last);
      assert items[..last + 1] == items;
      CollectSays(read, items[..last], pairs[..last]);
      assert Reads(read, items[last], pairs[last]);
      SaysOneMore(Collect(read, items[..last]), pairs[..last], pairs[last]);
      assert pairs == pairs[..last] + [pairs[last]];
    }
  }

  /** On a header of well-formed pairs both readers return exactly what the header says. */
  lemma HeaderIsRead(pairs: seq<Pair>)
    requires |pairs| > 0 && forall i :: 0 <= i < |pairs| ==> WellFormed(pairs[i])
    ensures Says(Collect(ReadItem, Split(CookieHeader(pairs), ';')), pairs)
    ensures Says(Collect(ReadPair, Split(CookieHeader(pairs), ';')), pairs)
  {
    var texts := Texts(pairs);
    forall i | 0 <= i < |texts| ensures ';' !in texts[i] {
      assert WellFormed(pairs[i]);
    }
    SplitJoined(texts);
    var items := Split(CookieHeader(pairs), ';');
    forall i | 0 <= i < |items| ensures Reads(ReadItem, items[i], pairs[i]) && Reads(ReadPair, items[i], pairs[i]) {
      var pad := if i == 0 then "" else " ";
      assert "" + texts[0] == texts[0];
      assert items[i] == pad + PairText(pairs[i]);
      ReadsItem(pad, pairs[i]);
      ReadsPair(pad, pairs[i]);
    }
    CollectSays(ReadItem, items, pairs);
    CollectSays(ReadPair, items, pairs);
  }

  /** What a header says is one object only. */
  lemma {:induction false} SaysIsUnique(a: map<string, string>, b: map<string, string>, pairs: seq<Pair>)
    requires Says(a, pairs) && Says(b, pairs)
    ensures a == b
  {
    forall name | name in a || name in b ensures name in a && name in b && a[name] == b[name] {
      var i :| 0 <= i < |pairs| && pairs[i].name == name;
      var last := LastIndex(pairs, i);
      assert pairs[last].name == name;
    }
    assert a.Keys == b.Keys;
  }

  lemma {:induction false} LastIndex(pairs: seq<Pair>, i: nat) returns (last: nat)
    requires i < |pairs|
    ensures i <= last < |pairs| && pairs[last].name == pairs[i].name && LastOfItsName(pairs, last)
    decreases |pairs| - i
  {
    if LastOfItsName(pairs, i) {
      last := i;
    } else {
      var j :| i < j < |pairs| && pairs[j].name == pairs[i].name;
      last := LastIndex(pairs, j);
    }
  }

  /**
   A cookie printed by serializeCookie and sent back among any other well-formed cookies, the last of its name, is read
   back with its value by both programs, exactly when it is not named like the prototype.
   */
  lemma PrintedCookieIsRead(name: string, value: string, pairs: seq<Pair>, i: nat)
    requires WellFormed(Pair(name, ""))
    requires i < |pairs| && pairs[i] == Pair(name, EncodeURIComponent(value)) && LastOfItsName(pairs, i)
    requires forall j :: 0 <= j < |pairs| && j != i ==> WellFormed(pairs[j])
    ensures var bff := Collect(ReadItem, Split(CookieHeader(pairs), ';'));
            var server := Collect(ReadPair, Split(CookieHeader(pairs), ';'));
            && bff == server
            && (name in bff <==> name != PROTO)
            && (name in bff ==> bff[name] == value)
  {
    hide Split, EncodeURIComponent, DecodeURIComponent, CookieHeader, Collect;
    EncodedIsWellFormed(name, value);
    DecodeEncode(value);
    HeaderIsRead(pairs);
    var items := Split(CookieHeader(pairs), ';');
    SaysIsUnique(Collect(ReadItem, items), Collect(ReadPair, items), pairs);
  }

  lemma EncodedIsWellFormed(name: string, value: string)
    requires WellFormed(Pair(name, ""))
    ensures WellFormed(Pair(name, EncodeURIComponent(value)))
  {
    EncodedSafe(value);
  }
}

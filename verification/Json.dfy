/** JSON text as JSON.stringify prints it and JSON.parse reads it back. */
module Json {
  import opened Prelude

  /**
   A JavaScript payload value. `Undefined` can occur in a value handed to the program but never in JSON.
   A number is its shortest round-trip decimal text, which identifies a finite double.
   */
  datatype Value =
    | Null
    | Undefined
    | Bool(b: bool)
    | Num(text: string)
    | Str(s: string)
    | Arr(items: seq<Value>)
    | Obj(members: seq<Member>)

  datatype Member = Member(key: string, value: Value)

  // ----- well-formed values -----

  /** The characters that can continue a number. */
  predicate NumChar(c: char) {
    '0' <= c <= '9' || c == '-' || c == '+' || c == '.' || c == 'e' || c == 'E'
  }

  /** How many digits a text begins with. */
  function Digits(s: string): (n: nat)
    ensures n <= |s|
  {
    if |s| == 0 || !('0' <= s[0] <= '9') then 0 else 1 + Digits(s[1..])
  }

  function FractionLength(s: string): (n: nat)
    ensures n <= |s|
  {
    if |s| > 0 && s[0] == '.' && Digits(s[1..]) > 0 then 1 + Digits(s[1..]) else 0
  }

  function ExponentLength(s: string): (n: nat)
    ensures n <= |s|
  {
    if |s| == 0 || (s[0] != 'e' && s[0] != 'E') then 0
    else
      var sign := if |s| > 1 && (s[1] == '+' || s[1] == '-') then 2 else 1;
      if Digits(s[sign..]) > 0 then sign + Digits(s[sign..]) else 0
  }

  /** An integer part without a leading zero. */
  function WholeLength(s: string): (n: nat)
    ensures n <= |s|
  {
    if |s| > 0 && s[0] == '0' then 1 else Digits(s)
  }

  /** The length of the JSON number a text begins with; 0 when there is none. */
  function NumLength(s: string): (n: nat)
    ensures n <= |s|
    ensures n > 0 ==> s[0] == '-' || '0' <= s[0] <= '9'
  {
    var sign := if |s| > 0 && s[0] == '-' then 1 else 0;
    var i := sign + WholeLength(s[sign..]);
    if i == sign then 0
    else
      var j := i + FractionLength(s[i..]);
      j + ExponentLength(s[j..])
  }

  predicate NumText(t: string) {
    |t| > 0 && NumLength(t) == |t|
  }

  function Keys(ms: seq<Member>): (ks: seq<string>)
    ensures |ks| == |ms|
    ensures forall i :: 0 <= i < |ms| ==> ks[i] == ms[i].key
  {
    seq(|ms|, i requires 0 <= i < |ms| => ms[i].key)
  }

  /** A value an object literal can denote: property names are distinct in every object. */
  predicate WellFormed(v: Value) {
    match v
    case Num(t) => NumText(t)
    case Arr(items) => AllWellFormed(items)
    case Obj(ms) => Distinct(Keys(ms)) && AllMembersWellFormed(ms)
    case _ => true
  }

  predicate AllWellFormed(vs: seq<Value>) {
    |vs| == 0 || (WellFormed(vs[0]) && AllWellFormed(vs[1..]))
  }

  predicate AllMembersWellFormed(ms: seq<Member>) {
    |ms| == 0 || (WellFormed(ms[0].value) && AllMembersWellFormed(ms[1..]))
  }

  /** No `undefined` anywhere inside. */
  predicate NoUndefined(v: Value) {
    match v
    case Undefined => false
    case Arr(items) => NoneUndefined(items)
    case Obj(ms) => NoMemberUndefined(ms)
    case _ => true
  }

  predicate NoneUndefined(vs: seq<Value>) {
    |vs| == 0 || (NoUndefined(vs[0]) && NoneUndefined(vs[1..]))
  }

  predicate NoMemberUndefined(ms: seq<Member>) {
    |ms| == 0 || (NoUndefined(ms[0].value) && NoMemberUndefined(ms[1..]))
  }

  predicate IsJson(v: Value) {
    WellFormed(v) && NoUndefined(v)
  }

  // ----- printing -----

  function HexDigit(n: nat): char
    requires n < 16
  {
    if n < 10 then '0' + n as char else 'a' + (n - 10) as char
  }

  /** The ECMAScript QuoteJSONString escapes. */
  function EscapeChar(c: char): string {
    if c == '\"' then "\\\""
    else if c == '\\' then "\\\\"
    else if c as int == 8 then "\\b"
    else if c as int == 9 then "\\t"
    else if c as int == 10 then "\\n"
    else if c as int == 12 then "\\f"
    else if c as int == 13 then "\\r"
    else if (c as int) < 32 then "\\u00" + [HexDigit(c as int / 16), HexDigit(c as int % 16)]
    else [c]
  }

  function Escape(s: string): string {
    if |s| == 0 then "" else EscapeChar(s[0]) + Escape(s[1..])
  }

  function Quote(s: string): string {
    "\"" + Escape(s) + "\""
  }

  /** JSON.stringify on a JSON value; `undefined` prints as it does inside an array. */
  function Print(v: Value): string {
    match v
    case Null => "null"
    case Undefined => "null"
    case Bool(b) => if b then "true" else "false"
    case Num(t) => t
    case Str(s) => Quote(s)
    case Arr(items) => "[" + PrintItems(items) + "]"
    case Obj(ms) => "{" + PrintMembers(ms) + "}"
  }

  function PrintItems(vs: seq<Value>): string {
    if |vs| == 0 then ""
    else if |vs| == 1 then Print(vs[0])
    else Print(vs[0]) + "," + PrintItems(vs[1..])
  }

  function PrintMembers(ms: seq<Member>): string {
    if |ms| == 0 then ""
    else if |ms| == 1 then Quote(ms[0].key) + ":" + Print(ms[0].value)
    else Quote(ms[0].key) + ":" + Print(ms[0].value) + "," + PrintMembers(ms[1..])
  }

  // ----- the printed text, exactly -----

  /** The characters JSON text holds as they are. */
  predicate Plain(c: char) {
    c != '\"' && c != '\\' && c as int >= 32
  }

  lemma {:induction false} PlainText(s: string)
    requires forall i :: 0 <= i < |s| ==> Plain(s[i])
    ensures Escape(s) == s && Quote(s) == "\"" + s + "\""
  {
    if |s| != 0 {
      PlainText(s[1..]);
      assert s == [s[0]] + s[1..];
    }
  }

  /** A text is escaped character by character. */
  lemma {:induction false} EscapeConcat(s: string, t: string)
    ensures Escape(s + t) == Escape(s) + Escape(t)
  {
    if |s| == 0 {
      assert s + t == t;
    } else {
      assert (s + t)[1..] == s[1..] + t;
      EscapeConcat(s[1..], t);
    }
  }

  lemma EscapeOne(c: char)
    ensures Escape([c]) == EscapeChar(c)
  {
    assert [c][1..] == [] && Escape([]) == "";
  }

  /** Quote, backslash, and the control characters with a short escape. */
  lemma EscapedCharacters()
    ensures Escape("\"") == "\\\"" && Escape("\\") == "\\\\"
    ensures Escape("\U{8}") == "\\b" && Escape("\t") == "\\t" && Escape("\n") == "\\n"
    ensures Escape("\U{C}") == "\\f" && Escape("\r") == "\\r"
  {
    EscapeOne('\"');
    EscapeOne('\\');
    EscapeOne('\U{8}');
    EscapeOne('\t');
    EscapeOne('\n');
    EscapeOne('\U{C}');
    EscapeOne('\r');
    hide Escape;
  }

  /** The other control characters. */
  lemma EscapedControls(c: char)
    requires c as int < 32 && c !in {'\U{8}', '\t', '\n', '\U{C}', '\r'}
    ensures Escape([c]) == (if c as int < 16 then "\\u000" else "\\u001") + ["0123456789abcdef"[c as int % 16]]
  {
    EscapeOne(c);
    hide Escape;
    assert HexDigit(c as int % 16) == "0123456789abcdef"[c as int % 16];
    assert HexDigit(c as int / 16) == if c as int < 16 then '0' else '1';
  }

  function PrintedItemTexts(vs: seq<Value>): (texts: seq<string>)
    ensures |texts| == |vs| && forall i :: 0 <= i < |vs| ==> texts[i] == Print(vs[i])
  {
    seq(|vs|, i requires 0 <= i < |vs| => Print(vs[i]))
  }

  function PrintedMemberTexts(ms: seq<Member>): (texts: seq<string>)
    ensures |texts| == |ms| && forall i :: 0 <= i < |ms| ==> texts[i] == Quote(ms[i].key) + ":" + Print(ms[i].value)
  {
    seq(|ms|, i requires 0 <= i < |ms| => Quote(ms[i].key) + ":" + Print(ms[i].value))
  }

  lemma {:induction false} ItemsJoin(vs: seq<Value>)
    ensures PrintItems(vs) == Join(PrintedItemTexts(vs), ",")
  {
    if |vs| > 1 {
      ItemsJoin(vs[1..]);
      assert PrintedItemTexts(vs) == [Print(vs[0])] + PrintedItemTexts(vs[1..]);
      JoinStep(",", Print(vs[0]), PrintedItemTexts(vs[1..]));
    }
  }

  lemma {:induction false} MembersJoin(ms: seq<Member>)
    ensures PrintMembers(ms) == Join(PrintedMemberTexts(ms), ",")
  {
    if |ms| > 1 {
      MembersJoin(ms[1..]);
      var first := Quote(ms[0].key) + ":" + Print(ms[0].value);
      assert PrintedMemberTexts(ms) == [first] + PrintedMemberTexts(ms[1..]);
      JoinStep(",", first, PrintedMemberTexts(ms[1..]));
    }
  }

  /** JSON.stringify: no whitespace, commas between items and members, a colon after each quoted key. */
  lemma PrintedText(vs: seq<Value>, ms: seq<Member>, s: string, t: string, b: bool)
    ensures Print(Null) == "null" == Print(Undefined) && Print(Bool(b)) == (if b then "true" else "false")
    ensures Print(Num(t)) == t && Print(Str(s)) == "\"" + Escape(s) + "\""
    ensures Print(Arr(vs)) == "[" + Join(PrintedItemTexts(vs), ",") + "]"
    ensures Print(Obj(ms)) == "{" + Join(PrintedMemberTexts(ms), ",") + "}"
  {
    ItemsJoin(vs);
    MembersJoin(ms);
  }

  // ----- parsing -----

  function HexValue(c: char): Option<nat> {
    if '0' <= c <= '9' then Some(c as int - '0' as int)
    else if 'a' <= c <= 'f' then Some(c as int - 'a' as int + 10)
    else if 'A' <= c <= 'F' then Some(c as int - 'A' as int + 10)
    else None
  }

  function HexQuad(s: string): Option<nat>
    requires |s| >= 4
  {
    match (HexValue(s[0]), HexValue(s[1]), HexValue(s[2]), HexValue(s[3]))
    case (Some(a), Some(b), Some(c), Some(d)) => Some(((a * 16 + b) * 16 + c) * 16 + d)
    case _ => None
  }

  /** The character a \u escape stands for and its length; the two escapes of a surrogate pair stand for one. */
  function UnicodeEscape(s: string): (r: Option<(char, nat)>)
    ensures r.Some? ==> 0 < r.value.1 <= |s|
  {
    if |s| < 6 then None
    else
      match HexQuad(s[2..6])
      case None => None
      case Some(n) =>
        if n < 0xD800 || 0xE000 <= n < 0x10000 then Some((n as char, 6))
        else if n < 0xDC00 && |s| >= 12 && s[6] == '\\' && s[7] == 'u' then
          match HexQuad(s[8..12])
          case Some(low) =>
            if 0xDC00 <= low < 0xE000 then
              Some(((0x10000 + (n - 0xD800) * 0x400 + (low - 0xDC00)) as char, 12))
            else None
          case None => None
        else None
  }

  /** Reads the inside of a string literal up to its closing quote; gives the text and what follows. */
  function ParseChars(s: string): (r: Option<(string, string)>)
    ensures r.Some? ==> |r.value.1| < |s|
    decreases |s|
  {
    if |s| == 0 then None
    else if s[0] == '\"' then Some(("", s[1..]))
    else if s[0] == '\\' then
      if |s| < 2 then None
      else if s[1] == 'u' then
        match UnicodeEscape(s)
        case None => None
        case Some((c, n)) => PrependChar(c, ParseChars(s[n..]))
      else
        match Unescaped(s[1])
        case None => None
        case Some(c) => PrependChar(c, ParseChars(s[2..]))
    else if (s[0] as int) < 32 then None
    else PrependChar(s[0], ParseChars(s[1..]))
  }

  function PrependChar(c: char, r: Option<(string, string)>): Option<(string, string)> {
    if r.None? then None else Some(([c] + r.value.0, r.value.1))
  }

  function Unescaped(c: char): Option<char> {
    if c == '\"' || c == '\\' || c == '/' then Some(c)
    else if c == 'b' then Some(8 as char)
    else if c == 't' then Some(9 as char)
    else if c == 'n' then Some(10 as char)
    else if c == 'f' then Some(12 as char)
    else if c == 'r' then Some(13 as char)
    else None
  }

  /** The whitespace JSON allows between tokens. */
  predicate IsBlank(c: char) {
    c == ' ' || c == '\t' || c == '\n' || c == '\r'
  }

  function Skip(s: string): (r: string)
    ensures |r| <= |s|
    ensures |s| == 0 || !IsBlank(s[0]) ==> r == s
  {
    if |s| != 0 && IsBlank(s[0]) then Skip(s[1..]) else s
  }

  function Parse(text: string): (r: Option<(Value, string)>)
    ensures r.Some? ==> |r.value.1| < |text|
    decreases |text|, 0
  {
    var s := Skip(text);
    if |s| == 0 then None
    else if "null" <= s then Some((Null, s[4..]))
    else if "true" <= s then Some((Bool(true), s[4..]))
    else if "false" <= s then Some((Bool(false), s[5..]))
    else if s[0] == '\"' then
      match ParseChars(s[1..])
      case None => None
      case Some((t, rest)) => Some((Str(t), rest))
    else if s[0] == '[' then
      var inside := Skip(s[1..]);
      if |inside| > 0 && inside[0] == ']' then Some((Arr([]), inside[1..]))
      else
        match ParseItems(inside)
        case None => None
        case Some((vs, rest)) => Some((Arr(vs), rest))
    else if s[0] == '{' then
      var inside := Skip(s[1..]);
      if |inside| > 0 && inside[0] == '}' then Some((Obj([]), inside[1..]))
      else
        match ParseMembers(inside)
        case None => None
        case Some((ms, rest)) => Some((Obj(ms), rest))
    else
      var n := NumLength(s);
      if n == 0 then None else Some((Num(s[..n]), s[n..]))
  }

  /** Items and the closing bracket. */
  function ParseItems(s: string): (r: Option<(seq<Value>, string)>)
    ensures r.Some? ==> |r.value.1| < |s|
    decreases |s|, 1
  {
    match Parse(s)
    case None => None
    case Some((v, after)) =>
      var rest := Skip(after);
      if |rest| == 0 then None
      else if rest[0] == ']' then Some(([v], rest[1..]))
      else if rest[0] == ',' then
        match ParseItems(rest[1..])
        case None => None
        case Some((vs, rest')) => Some(([v] + vs, rest'))
      else None
  }

  /** Members and the closing brace. */
  function ParseMembers(text: string): (r: Option<(seq<Member>, string)>)
    ensures r.Some? ==> |r.value.1| < |text|
    decreases |text|, 1
  {
    var s := Skip(text);
    if |s| == 0 || s[0] != '\"' then None
    else
      match ParseChars(s[1..])
      case None => None
      case Some((k, quoted)) =>
        var afterKey := Skip(quoted);
        if |afterKey| == 0 || afterKey[0] != ':' then None
        else
          match Parse(afterKey[1..])
          case None => None
          case Some((v, after)) =>
            var rest := Skip(after);
            if |rest| == 0 then None
            else if rest[0] == '}' then Some(([Member(k, v)], rest[1..]))
            else if rest[0] == ',' then
              match ParseMembers(rest[1..])
              case None => None
              case Some((ms, rest')) => Some(([Member(k, v)] + ms, rest'))
            else None
  }

  /** JSON.parse of a whole text. */
  function ParseText(s: string): Option<Value> {
    match Parse(s)
    case Some((v, rest)) => if Skip(rest) == "" then Some(v) else None
    case _ => None
  }

  // ----- what the reader takes, exactly -----

  /** Spaces, tabs, line feeds and carriage returns are skipped between tokens, and nothing else. */
  lemma {:induction false} SkipExactly(s: string)
    ensures |Skip(s)| <= |s| && Skip(s) == s[|s| - |Skip(s)|..]
    ensures forall i :: 0 <= i < |s| - |Skip(s)| ==> s[i] as int in {9, 10, 13, 32}
    ensures Skip(s) != "" ==> Skip(s)[0] as int !in {9, 10, 13, 32}
  {
    if |s| != 0 && IsBlank(s[0]) {
      SkipExactly(s[1..]);
      var n := |s[1..]| - |Skip(s)|;
      forall i | 0 <= i < n + 1 ensures s[i] as int in {9, 10, 13, 32} {
        assert i > 0 ==> s[i] == s[1..][i - 1];
      }
    }
  }

  predicate AllDigits(s: string) {
    forall i :: 0 <= i < |s| ==> 48 <= s[i] as int <= 57
  }

  /** Zero, or digits that do not begin with it. */
  predicate IsWhole(s: string) {
    s == "0" || (|s| > 0 && AllDigits(s) && s[0] != '0')
  }

  predicate IsFraction(s: string) {
    s == "" || (|s| >= 2 && s[0] == '.' && AllDigits(s[1..]))
  }

  predicate IsExponent(s: string) {
    || s == ""
    || (s[0] in {'e', 'E'} && |s| >= 2 && AllDigits(s[1..]))
    || (s[0] in {'e', 'E'} && |s| >= 3 && s[1] in {'+', '-'} && AllDigits(s[2..]))
  }

  /** The grammar of JSON's numbers (section 6 of RFC 8259). */
  ghost predicate IsNumber(t: string) {
    exists minus: string, whole: string, fraction: string, exponent: string ::
      && t == minus + whole + fraction + exponent
      && minus in {"", "-"} && IsWhole(whole) && IsFraction(fraction) && IsExponent(exponent)
  }

  lemma {:induction false} DigitsAre(s: string)
    ensures AllDigits(s[..Digits(s)])
  {
    if Digits(s) > 0 {
      DigitsAre(s[1..]);
      assert s[..Digits(s)] == [s[0]] + s[1..][..Digits(s[1..])];
    }
  }

  lemma {:induction false} DigitsRun(s: string, rest: string)
    requires AllDigits(s) && (rest == "" || !(48 <= rest[0] as int <= 57))
    ensures Digits(s + rest) == |s|
  {
    if |s| == 0 {
      assert s + rest == rest;
    } else {
      assert (s + rest)[1..] == s[1..] + rest;
      DigitsRun(s[1..], rest);
    }
  }

  lemma WholeExactly(s: string, whole: string, rest: string)
    ensures WholeLength(s) > 0 ==> IsWhole(s[..WholeLength(s)])
    ensures IsWhole(whole) && (rest == "" || !(48 <= rest[0] as int <= 57)) ==> WholeLength(whole + rest) == |whole|
  {
    DigitsAre(s);
    if IsWhole(whole) && (rest == "" || !(48 <= rest[0] as int <= 57)) {
      DigitsRun(whole, rest);
    }
  }

  lemma FractionExactly(s: string, fraction: string, rest: string)
    ensures IsFraction(s[..FractionLength(s)])
    ensures IsFraction(fraction) && (rest == "" || rest[0] in {'e', 'E'}) ==>
              FractionLength(fraction + rest) == |fraction|
  {
    if |s| > 0 {
      DigitsAre(s[1..]);
      assert FractionLength(s) > 0 ==> s[..FractionLength(s)][1..] == s[1..][..Digits(s[1..])];
    }
    if IsFraction(fraction) && (rest == "" || rest[0] in {'e', 'E'}) {
      if fraction == "" {
        assert fraction + rest == rest;
      } else {
        assert (fraction + rest)[1..] == fraction[1..] + rest;
        DigitsRun(fraction[1..], rest);
      }
    }
  }

  lemma ExponentExactly(s: string)
    ensures IsExponent(s[..ExponentLength(s)])
    ensures IsExponent(s) ==> ExponentLength(s) == |s|
  {
    if |s| > 0 {
      var sign := if |s| > 1 && (s[1] == '+' || s[1] == '-') then 2 else 1;
      var digits := s[sign..];
      DigitsAre(digits);
      assert ExponentLength(s) > 0 ==> s[..ExponentLength(s)][sign..] == digits[..Digits(digits)];
      if IsExponent(s) {
        assert AllDigits(digits) by {
          assert sign == 2 ==> s[1..][0] == s[1];
        }
        DigitsRun(digits, "");
        assert digits + "" == digits;
      }
    }
  }

  /** A number is read exactly when it is one by the grammar. */
  lemma NumTextExactly(t: string)
    ensures NumText(t) <==> IsNumber(t)
  {
    if NumText(t) {
      TextIsNumber(t);
    }
    if IsNumber(t) {
      var minus: string, whole: string, fraction: string, exponent: string :|
        t == minus + whole + fraction + exponent
        && minus in {"", "-"} && IsWhole(whole) && IsFraction(fraction) && IsExponent(exponent);
      NumberIsText(t, minus, whole, fraction, exponent);
    }
  }

  lemma Slices(t: string, sign: nat, i: nat, j: nat)
    requires sign <= i <= j <= |t|
    ensures t == t[..sign] + t[sign..i] + t[i..j] + t[j..]
    ensures t[sign..i] == t[sign..][..i - sign] && t[i..j] == t[i..][..j - i] && t[j..] == t[j..][..|t| - j]
  {
  }

  lemma NumberCuts(t: string) returns (sign: nat, i: nat, j: nat)
    requires NumText(t)
    ensures sign <= i <= j <= |t| && (sign == 0 || (sign == 1 && t[0] == '-'))
    ensures i - sign == WholeLength(t[sign..]) > 0 && j - i == FractionLength(t[i..])
    ensures |t| - j == ExponentLength(t[j..])
  {
    hide WholeLength, FractionLength, ExponentLength;
    sign := if t[0] == '-' then 1 else 0;
    i := sign + WholeLength(t[sign..]);
    j := i + FractionLength(t[i..]);
  }

  lemma TextIsNumber(t: string)
    requires NumText(t)
    ensures IsNumber(t)
  {
    var sign, i, j := NumberCuts(t);
    hide WholeLength, FractionLength, ExponentLength, NumText, IsWhole, IsFraction, IsExponent, IsNumber;
    WholeExactly(t[sign..], "", "");
    FractionExactly(t[i..], "", "");
    ExponentExactly(t[j..]);
    Slices(t, sign, i, j);
    NumberFrom(t, t[..sign], t[sign..i], t[i..j], t[j..]);
  }

  lemma NumberFrom(t: string, minus: string, whole: string, fraction: string, exponent: string)
    requires t == minus + whole + fraction + exponent
    requires |minus| == 0 || (|minus| == 1 && minus[0] == '-')
    requires IsWhole(whole) && IsFraction(fraction) && IsExponent(exponent)
    ensures IsNumber(t)
  {
    assert minus == "" || minus == "-";
  }

  lemma NumberParts(t: string, minus: string, whole: string, fraction: string, exponent: string)
    requires t == minus + whole + fraction + exponent
    ensures t[|minus|..] == whole + (fraction + exponent)
    ensures t[|minus| + |whole|..] == fraction + exponent
    ensures t[|minus| + |whole| + |fraction|..] == exponent
    ensures minus == "-" ==> |t| > 0 && t[0] == '-'
    ensures minus == "" && |whole| > 0 ==> |t| > 0 && t[0] == whole[0]
  {
  }

  lemma NumLengthFrom(t: string, sign: nat, i: nat, j: nat)
    requires |t| > 0 && sign == if t[0] == '-' then 1 else 0
    requires sign < i <= j <= |t| && WholeLength(t[sign..]) == i - sign
    requires FractionLength(t[i..]) == j - i && ExponentLength(t[j..]) == |t| - j
    ensures NumText(t)
  {
    hide WholeLength, FractionLength, ExponentLength;
  }

  /** What follows the whole part is no digit. */
  lemma BehindWhole(fraction: string, exponent: string)
    requires IsFraction(fraction) && IsExponent(exponent)
    ensures exponent == "" || exponent[0] in {'e', 'E'}
    ensures fraction + exponent == "" || !(48 <= (fraction + exponent)[0] as int <= 57)
  {
    assert fraction == "" ==> fraction + exponent == exponent;
  }

  lemma NumberIsText(t: string, minus: string, whole: string, fraction: string, exponent: string)
    requires t == minus + whole + fraction + exponent
    requires minus in {"", "-"} && IsWhole(whole) && IsFraction(fraction) && IsExponent(exponent)
    ensures NumText(t)
  {
    assert |whole| > 0 && whole[0] != '-';
    BehindWhole(fraction, exponent);
    WholeExactly("", whole, fraction + exponent);
    FractionExactly("", fraction, exponent);
    ExponentExactly(exponent);
    hide WholeLength, FractionLength, ExponentLength, IsWhole, IsFraction, IsExponent, NumText;
    NumberParts(t, minus, whole, fraction, exponent);
    NumLengthFrom(t, |minus|, |minus| + |whole|, |minus| + |whole| + |fraction|);
  }

  /** The escapes of one letter. */
  lemma UnescapedExactly(c: char)
    ensures Unescaped('\"') == Some('\"') && Unescaped('\\') == Some('\\') && Unescaped('/') == Some('/')
    ensures Unescaped('b') == Some('\U{8}') && Unescaped('f') == Some('\U{C}')
    ensures Unescaped('n') == Some('\n') && Unescaped('r') == Some('\r') && Unescaped('t') == Some('\t')
    ensures Unescaped(c).Some? <==> c in {'\"', '\\', '/', 'b', 'f', 'n', 'r', 't'}
  {
  }

  lemma HexValueExactly(c: char)
    ensures HexValue(c) == if 48 <= c as int <= 57 then Some(c as int - 48)
                           else if 65 <= c as int <= 70 then Some(c as int - 55)
                           else if 97 <= c as int <= 102 then Some(c as int - 87)
                           else None
  {
  }

  /** Four hexadecimal digits, the most significant first. */
  lemma HexQuadExactly(s: string)
    requires |s| >= 4
    ensures HexQuad(s).Some? <==> forall i :: 0 <= i < 4 ==> HexValue(s[i]).Some?
    ensures HexQuad(s).Some? ==>
              && HexQuad(s).value == HexValue(s[0]).value * 4096 + HexValue(s[1]).value * 256 +
                                     HexValue(s[2]).value * 16 + HexValue(s[3]).value
              && HexQuad(s).value < 65536
  {
    HexValueExactly(s[0]);
    HexValueExactly(s[1]);
    HexValueExactly(s[2]);
    HexValueExactly(s[3]);
  }

  /**
   A \u escape stands for the code unit it gives; a high surrogate stands for a character together with the low one
   escaped right behind it, and no lone surrogate is read.
   */
  lemma UnicodeEscapeExactly(high: string, low: string, rest: string)
    requires |high| == 4 && |low| == 4 && HexQuad(high).Some?
    ensures var unit := HexQuad(high).value;
            !(0xD800 <= unit <= 0xDFFF) ==> UnicodeEscape("\\u" + high + rest) == Some((unit as char, 6))
    ensures 0xDC00 <= HexQuad(high).value <= 0xDFFF ==> UnicodeEscape("\\u" + high + rest) == None
    ensures 0xD800 <= HexQuad(high).value <= 0xDBFF && (|rest| < 2 || rest[0] != '\\' || rest[1] != 'u') ==>
              UnicodeEscape("\\u" + high + rest) == None
    ensures var s := "\\u" + high + ("\\u" + low + rest);
            0xD800 <= HexQuad(high).value <= 0xDBFF ==>
              UnicodeEscape(s) ==
              if HexQuad(low).Some? && 0xDC00 <= HexQuad(low).value <= 0xDFFF
              then Some((((HexQuad(high).value - 55296) * 1024 + HexQuad(low).value - 56320 + 65536) as char, 12))
              else None
  {
    HexQuadExactly(high);
    HexQuadExactly(low);
    var one := "\\u" + high + rest;
    assert one[2..6] == high && one[6..] == rest;
    assert |rest| >= 2 ==> one[6] == rest[0] && one[7] == rest[1];
    var two := "\\u" + high + ("\\u" + low + rest);
    assert two[2..6] == high && two[8..12] == low && two[6] == '\\' && two[7] == 'u';
    hide HexQuad;
  }

  // ----- JSON.parse undoes JSON.stringify -----

  lemma EscapeCharParses(c: char, rest: string)
    ensures ParseChars(EscapeChar(c) + rest) == PrependChar(c, ParseChars(rest))
  {
    var e := EscapeChar(c);
    var t := e + rest;
    if |e| == 1 {
      assert t[0] == c && t[1..] == rest;
    } else if |e| == 2 {
      assert t[0] == '\\' && t[1] == e[1] && t[2..] == rest;
    } else {
      assert t[0] == '\\' && t[1] == 'u' && t[6..] == rest;
      assert t[2..6] == e[2..6];
      assert c as int / 16 < 2;
    }
  }

  lemma {:induction false} EscapeParses(s: string, rest: string)
    ensures ParseChars(Escape(s) + "\"" + rest) == Some((s, rest))
  {
    if |s| == 0 {
      assert Escape(s) + "\"" + rest == "\"" + rest;
      assert ("\"" + rest)[1..] == rest;
    } else {
      var tail := Escape(s[1..]) + "\"" + rest;
      assert Escape(s) + "\"" + rest == EscapeChar(s[0]) + tail;
      EscapeCharParses(s[0], tail);
      EscapeParses(s[1..], rest);
      assert [s[0]] + s[1..] == s;
    }
  }

  lemma QuoteParses(s: string, rest: string)
    ensures Quote(s) + rest != "" && (Quote(s) + rest)[0] == '\"'
    ensures ParseChars((Quote(s) + rest)[1..]) == Some((s, rest))
  {
    assert (Quote(s) + rest)[1..] == Escape(s) + "\"" + rest;
    EscapeParses(s, rest);
  }

  // What follows a number does not change how far it is read.

  lemma {:induction false} DigitsOf(t: string, rest: string)
    requires |rest| == 0 || !NumChar(rest[0])
    ensures Digits(t + rest) == Digits(t)
  {
    if |t| == 0 {
      assert t + rest == rest;
    } else {
      assert (t + rest)[1..] == t[1..] + rest;
      DigitsOf(t[1..], rest);
    }
  }

  lemma FractionOf(t: string, rest: string)
    requires |rest| == 0 || !NumChar(rest[0])
    ensures FractionLength(t + rest) == FractionLength(t)
  {
    if |t| == 0 {
      assert t + rest == rest;
    } else {
      assert (t + rest)[1..] == t[1..] + rest;
      DigitsOf(t[1..], rest);
    }
  }

  lemma ExponentOf(t: string, rest: string)
    requires |rest| == 0 || !NumChar(rest[0])
    ensures ExponentLength(t + rest) == ExponentLength(t)
  {
    if |t| == 0 {
      assert t + rest == rest;
    } else {
      var sign := if |t| > 1 && (t[1] == '+' || t[1] == '-') then 2 else 1;
      assert (t + rest)[sign..] == t[sign..] + rest;
      assert |t| == 1 && |rest| > 0 ==> (t + rest)[1] == rest[0];
      DigitsOf(t[sign..], rest);
    }
  }

  lemma WholeOf(t: string, rest: string)
    requires |rest| == 0 || !NumChar(rest[0])
    ensures WholeLength(t + rest) == WholeLength(t)
  {
    DigitsOf(t, rest);
    assert |t| == 0 ==> t + rest == rest;
  }

  /** The fraction and the exponent after the first i characters. */
  lemma TailOf(t: string, rest: string, i: nat)
    requires i <= |t| && (|rest| == 0 || !NumChar(rest[0]))
    ensures var j := i + FractionLength(t[i..]);
            i + FractionLength((t + rest)[i..]) == j && ExponentLength((t + rest)[j..]) == ExponentLength(t[j..])
  {
    hide FractionLength, ExponentLength, NumChar;
    var j := i + FractionLength(t[i..]);
    assert (t + rest)[i..] == t[i..] + rest && (t + rest)[j..] == t[j..] + rest;
    FractionOf(t[i..], rest);
    ExponentOf(t[j..], rest);
  }

  lemma NumLengthOf(t: string, rest: string)
    requires NumText(t)
    requires |rest| == 0 || !NumChar(rest[0])
    ensures NumLength(t + rest) == |t|
  {
    hide FractionLength, ExponentLength, WholeLength, NumChar;
    var sign := if t[0] == '-' then 1 else 0;
    assert (t + rest)[sign..] == t[sign..] + rest;
    WholeOf(t[sign..], rest);
    TailOf(t, rest, sign + WholeLength(t[sign..]));
  }

  /** A printed JSON value starts with none of the closing or separating marks. */
  lemma PrintStarts(v: Value)
    requires WellFormed(v)
    ensures |Print(v)| > 0 && Print(v)[0] !in {']', '}', ',', ':'} && !IsBlank(Print(v)[0])
  {
  }

  lemma ParseLiteral(v: Value, rest: string)
    requires v.Null? || v.Bool?
    ensures Parse(Print(v) + rest) == Some((v, rest))
  {
    var s := Print(v) + rest;
    assert s[..|Print(v)|] == Print(v) && s[|Print(v)|..] == rest;
    assert s[0] == Print(v)[0];
  }

  lemma ParseString(t: string, rest: string)
    ensures Parse(Quote(t) + rest) == Some((Str(t), rest))
  {
    QuoteParses(t, rest);
  }

  /** A text that starts with a bracket or a number starts with none of the literal words. */
  lemma NoWord(s: string)
    requires |s| > 0 && (s[0] in {'[', '{', '-'} || '0' <= s[0] <= '9')
    ensures !("null" <= s) && !("true" <= s) && !("false" <= s)
  {
    assert "null"[0] == 'n' && "true"[0] == 't' && "false"[0] == 'f';
  }

  lemma NumberBranch(s: string)
    requires NumLength(s) > 0
    ensures Parse(s) == Some((Num(s[..NumLength(s)]), s[NumLength(s)..]))
  {
    NoWord(s);
    hide ParseItems, ParseMembers, ParseChars, NumLength;
  }

  lemma ParseNumber(t: string, rest: string)
    requires NumText(t)
    requires |rest| == 0 || !NumChar(rest[0])
    ensures Parse(t + rest) == Some((Num(t), rest))
  {
    hide Parse;
    var s := t + rest;
    NumLengthOf(t, rest);
    NumberBranch(s);
    assert s[..|t|] == t && s[|t|..] == rest;
  }

  // ----- whitespace between tokens -----

  predicate Blanks(w: string) {
    forall i :: 0 <= i < |w| ==> IsBlank(w[i])
  }

  lemma {:induction false} SkipBlanks(w: string, s: string)
    requires Blanks(w)
    ensures Skip(w + s) == Skip(s)
  {
    if |w| == 0 {
      assert w + s == s;
    } else {
      assert (w + s)[1..] == w[1..] + s;
      assert forall i :: 0 <= i < |w[1..]| ==> w[1..][i] == w[i + 1];
      SkipBlanks(w[1..], s);
    }
  }

  /** Parsing begins at the first token. */
  lemma ParseSkips(w: string, s: string)
    requires Blanks(w)
    ensures Parse(w + s) == Parse(s) && ParseItems(w + s) == ParseItems(s) && ParseMembers(w + s) == ParseMembers(s)
  {
    SkipBlanks(w, s);
    hide Skip, ParseChars, NumLength;
  }

  /** The text of a value with whitespace w before and after each comma and colon and inside each pair of brackets. */
  function Spaced(v: Value, w: string): string {
    match v
    case Arr(items) => "[" + w + SpacedItems(items, w) + "]"
    case Obj(ms) => "{" + w + SpacedMembers(ms, w) + "}"
    case _ => Print(v)
  }

  function SpacedItems(vs: seq<Value>, w: string): string {
    if |vs| == 0 then ""
    else if |vs| == 1 then Spaced(vs[0], w) + w
    else Spaced(vs[0], w) + w + "," + w + SpacedItems(vs[1..], w)
  }

  function SpacedMembers(ms: seq<Member>, w: string): string {
    if |ms| == 0 then ""
    else if |ms| == 1 then Quote(ms[0].key) + w + ":" + w + Spaced(ms[0].value, w) + w
    else Quote(ms[0].key) + w + ":" + w + Spaced(ms[0].value, w) + w + "," + w + SpacedMembers(ms[1..], w)
  }

  /** Without whitespace it is the printed text. */
  lemma {:induction false} SpacedTight(v: Value)
    ensures Spaced(v, "") == Print(v)
    decreases v, 1
  {
    match v
    case Arr(items) => ItemsTight(items);
    case Obj(ms) => MembersTight(ms);
    case _ =>
  }

  lemma {:induction false} ItemsTight(vs: seq<Value>)
    ensures SpacedItems(vs, "") == PrintItems(vs)
    decreases vs, 0
  {
    if |vs| != 0 {
      SpacedTight(vs[0]);
      ItemsTight(vs[1..]);
    }
  }

  lemma {:induction false} MembersTight(ms: seq<Member>)
    ensures SpacedMembers(ms, "") == PrintMembers(ms)
    decreases ms, 0
  {
    if |ms| != 0 {
      SpacedTight(ms[0].value);
      MembersTight(ms[1..]);
    }
  }

  /** A text starts with none of the closing or separating marks, and with no whitespace. */
  lemma SpacedStarts(v: Value, w: string)
    requires WellFormed(v)
    ensures |Spaced(v, w)| > 0 && Spaced(v, w)[0] !in {']', '}', ',', ':'} && !IsBlank(Spaced(v, w)[0])
  {
  }

  lemma ParseArray(w: string, body: string, vs: seq<Value>, rest: string)
    requires Blanks(w) && |body| > 0 && body[0] != ']' && !IsBlank(body[0]) && ParseItems(body) == Some((vs, rest))
    ensures Parse("[" + (w + body)) == Some((Arr(vs), rest))
  {
    var s := "[" + (w + body);
    assert s[1..] == w + body;
    SkipBlanks(w, body);
    NoWord(s);
    hide ParseItems, ParseMembers, ParseChars, NumLength;
  }

  lemma ParseObject(w: string, body: string, ms: seq<Member>, rest: string)
    requires Blanks(w) && |body| > 0 && body[0] != '}' && !IsBlank(body[0]) && ParseMembers(body) == Some((ms, rest))
    ensures Parse("{" + (w + body)) == Some((Obj(ms), rest))
  {
    var s := "{" + (w + body);
    assert s[1..] == w + body;
    SkipBlanks(w, body);
    NoWord(s);
    hide ParseItems, ParseMembers, ParseChars, NumLength;
  }

  lemma ParseEmpty(w: string, rest: string)
    requires Blanks(w)
    ensures Parse("[" + (w + ("]" + rest))) == Some((Arr([]), rest))
    ensures Parse("{" + (w + ("}" + rest))) == Some((Obj([]), rest))
  {
    var a, o := "[" + (w + ("]" + rest)), "{" + (w + ("}" + rest));
    assert a[1..] == w + ("]" + rest) && ("]" + rest)[1..] == rest;
    assert o[1..] == w + ("}" + rest) && ("}" + rest)[1..] == rest;
    SkipBlanks(w, "]" + rest);
    SkipBlanks(w, "}" + rest);
    NoWord(a);
    NoWord(o);
    hide ParseItems, ParseMembers, ParseChars, NumLength;
  }

  // How the texts fall apart; each part is itself a text.

  lemma Reassociate(p: string, w: string, q: string, mark: string, rest: string)
    ensures (p + w) + mark + rest == p + (w + (mark + rest))
    ensures (p + w + "," + w + q) + mark + rest == p + (w + ("," + (w + (q + mark + rest))))
  {
  }

  lemma SpacedItemsText(vs: seq<Value>, w: string, rest: string)
    requires |vs| > 0
    ensures var tail := if |vs| == 1 then "]" + rest else "," + (w + (SpacedItems(vs[1..], w) + "]" + rest));
            SpacedItems(vs, w) + "]" + rest == Spaced(vs[0], w) + (w + tail)
  {
    hide Spaced;
    Reassociate(Spaced(vs[0], w), w, SpacedItems(vs[1..], w), "]", rest);
  }

  lemma SpacedMembersText(ms: seq<Member>, w: string, rest: string)
    requires |ms| > 0
    ensures var tail := if |ms| == 1 then "}" + rest else "," + (w + (SpacedMembers(ms[1..], w) + "}" + rest));
            SpacedMembers(ms, w) + "}" + rest ==
            Quote(ms[0].key) + (w + (":" + (w + (Spaced(ms[0].value, w) + (w + tail)))))
  {
    hide Spaced, Quote;
    var k, x := Quote(ms[0].key), Spaced(ms[0].value, w);
    Reassociate(k + w + ":" + w + x, w, SpacedMembers(ms[1..], w), "}", rest);
    var tail := if |ms| == 1 then "}" + rest else "," + (w + (SpacedMembers(ms[1..], w) + "}" + rest));
    Member4(k, w, x, w + tail);
  }

  lemma Member4(k: string, w: string, x: string, rest: string)
    ensures (k + w + ":" + w + x) + rest == k + (w + (":" + (w + (x + rest))))
  {
  }

  /** One item: its value, then either the closing bracket or a comma and more. */
  lemma ParseItemStep(text: string, v: Value, w: string, tail: string)
    requires Blanks(w) && |tail| > 0 && !IsBlank(tail[0]) && Parse(text) == Some((v, w + tail))
    ensures tail[0] == ']' ==> ParseItems(text) == Some(([v], tail[1..]))
    ensures tail[0] == ',' && ParseItems(tail[1..]).Some? ==>
              ParseItems(text) == Some(([v] + ParseItems(tail[1..]).value.0, ParseItems(tail[1..]).value.1))
  {
    SkipBlanks(w, tail);
    hide Parse;
  }

  /** One member: its key, a colon, its value, then either the closing brace or a comma and more. */
  lemma ParseMemberStep(k: string, w: string, text: string, v: Value, tail: string)
    requires Blanks(w) && |tail| > 0 && !IsBlank(tail[0]) && Parse(text) == Some((v, w + tail))
    ensures var s := Quote(k) + (w + (":" + text));
            && (tail[0] == '}' ==> ParseMembers(s) == Some(([Member(k, v)], tail[1..])))
            && (tail[0] == ',' && ParseMembers(tail[1..]).Some? ==>
                  var rest := ParseMembers(tail[1..]).value;
                  ParseMembers(s) == Some(([Member(k, v)] + rest.0, rest.1)))
  {
    QuoteParses(k, w + (":" + text));
    SkipBlanks(w, ":" + text);
    SkipBlanks(w, tail);
    assert (":" + text)[1..] == text;
    hide Parse, ParseChars;
  }

  lemma AfterBlanks(w: string, tail: string)
    requires Blanks(w) && |tail| > 0 && !NumChar(tail[0])
    ensures !NumChar((w + tail)[0])
  {
  }

  /** Whatever whitespace is between the tokens, parsing recovers the value and leaves what follows. */
  lemma {:induction false} SpacedParses(v: Value, w: string, rest: string)
    requires IsJson(v) && Blanks(w)
    requires |rest| == 0 || !NumChar(rest[0])
    ensures Parse(Spaced(v, w) + rest) == Some((v, rest))
    decreases v, 0
  {
    hide Parse, ParseItems, ParseMembers, NumLength, Quote, SpacedItems, SpacedMembers, Blanks;
    match v
    case Null => ParseLiteral(v, rest);
    case Bool(_) => ParseLiteral(v, rest);
    case Num(t) => ParseNumber(t, rest);
    case Str(t) => ParseString(t, rest);
    case Arr(items) =>
      Bracketed("[", w, SpacedItems(items, w), "]", rest);
      if |items| == 0 {
        NoItems(w);
        ParseEmpty(w, rest);
      } else {
        SpacedItemsText(items, w, rest);
        ItemsParse(items, w, rest);
        SpacedStarts(items[0], w);
        ParseArray(w, SpacedItems(items, w) + "]" + rest, items, rest);
      }
    case Obj(ms) =>
      Bracketed("{", w, SpacedMembers(ms, w), "}", rest);
      if |ms| == 0 {
        NoItems(w);
        ParseEmpty(w, rest);
      } else {
        SpacedMembersText(ms, w, rest);
        MembersParse(ms, w, rest);
        QuoteStarts(ms[0].key);
        ParseObject(w, SpacedMembers(ms, w) + "}" + rest, ms, rest);
      }
  }

  lemma Bracketed(left: string, w: string, body: string, right: string, rest: string)
    ensures (left + w + body + right) + rest == left + (w + (body + right + rest))
    ensures body == "" ==> (left + w + body + right) + rest == left + (w + (right + rest))
  {
    assert body == "" ==> body + right + rest == right + rest;
  }

  lemma NoItems(w: string)
    ensures SpacedItems([], w) == "" && SpacedMembers([], w) == ""
  {
  }

  lemma QuoteStarts(k: string)
    ensures |Quote(k)| > 0 && Quote(k)[0] == '\"'
  {
  }

  lemma {:induction false} ItemsParse(vs: seq<Value>, w: string, rest: string)
    requires |vs| > 0 && AllWellFormed(vs) && NoneUndefined(vs) && Blanks(w)
    ensures ParseItems(SpacedItems(vs, w) + "]" + rest) == Some((vs, rest))
    decreases vs, 1
  {
    hide Parse, ParseItems, Spaced, SpacedItems, Blanks;
    SpacedItemsText(vs, w, rest);
    var more := w + (SpacedItems(vs[1..], w) + "]" + rest);
    var tail := if |vs| == 1 then "]" + rest else "," + more;
    AfterBlanks(w, tail);
    SpacedParses(vs[0], w, w + tail);
    ParseItemStep(Spaced(vs[0], w) + (w + tail), vs[0], w, tail);
    if |vs| == 1 {
      assert tail[1..] == rest && [vs[0]] == vs;
    } else {
      ItemsParse(vs[1..], w, rest);
      ParseSkips(w, SpacedItems(vs[1..], w) + "]" + rest);
      assert tail[1..] == more;
      assert [vs[0]] + vs[1..] == vs;
    }
  }

  lemma {:induction false} MembersParse(ms: seq<Member>, w: string, rest: string)
    requires |ms| > 0 && AllMembersWellFormed(ms) && NoMemberUndefined(ms) && Blanks(w)
    ensures ParseMembers(SpacedMembers(ms, w) + "}" + rest) == Some((ms, rest))
    decreases ms, 1
  {
    hide Parse, ParseMembers, Spaced, SpacedMembers, Blanks, Quote;
    var m := ms[0];
    SpacedMembersText(ms, w, rest);
    var more := w + (SpacedMembers(ms[1..], w) + "}" + rest);
    var tail := if |ms| == 1 then "}" + rest else "," + more;
    AfterBlanks(w, tail);
    SpacedParses(m.value, w, w + tail);
    ParseSkips(w, Spaced(m.value, w) + (w + tail));
    ParseMemberStep(m.key, w, w + (Spaced(m.value, w) + (w + tail)), m.value, tail);
    if |ms| == 1 {
      assert tail[1..] == rest && [m] == ms;
    } else {
      MembersParse(ms[1..], w, rest);
      ParseSkips(w, SpacedMembers(ms[1..], w) + "}" + rest);
      assert tail[1..] == more;
      assert [m] + ms[1..] == ms;
    }
  }

  /** Whatever follows a printed value, parsing recovers the value and leaves the rest. */
  lemma PrintParses(v: Value, rest: string)
    requires IsJson(v)
    requires |rest| == 0 || !NumChar(rest[0])
    ensures Parse(Print(v) + rest) == Some((v, rest))
  {
    SpacedTight(v);
    SpacedParses(v, "", rest);
  }

  /** JSON.parse reads a value whatever whitespace stands around it and between its tokens. */
  lemma WhitespaceIgnored(v: Value, before: string, w: string, behind: string)
    requires IsJson(v) && Blanks(before) && Blanks(w) && Blanks(behind)
    ensures ParseText(before + (Spaced(v, w) + behind)) == Some(v)
  {
    hide Parse, Spaced;
    SpacedParses(v, w, behind);
    ParseSkips(before, Spaced(v, w) + behind);
    SkipBlanks(behind, "");
    assert behind + "" == behind;
  }

  /** JSON.parse(JSON.stringify(v)) gives v back, at any depth. */
  lemma RoundTrip(v: Value)
    requires IsJson(v)
    ensures ParseText(Print(v)) == Some(v)
  {
    PrintParses(v, "");
    assert Print(v) + "" == Print(v);
  }

  /** Printing is injective on JSON values of any depth. */
  lemma PrintInjective(v: Value, w: Value)
    requires IsJson(v) && IsJson(w) && Print(v) == Print(w)
    ensures v == w
  {
    RoundTrip(v);
    RoundTrip(w);
  }
}

/** Base64 and its URL-safe form (sections 4 and 5 of RFC 4648) as Buffer prints and reads them. */
module Base64 {
  import opened Prelude

  type Byte = b: int | 0 <= b < 256

  type Digit = d: int | 0 <= d < 64

  function Symbol(d: Digit): char {
    if d < 26 then 'A' + d as char
    else if d < 52 then 'a' + (d - 26) as char
    else if d < 62 then '0' + (d - 52) as char
    else if d == 62 then '+' else '/'
  }

  /** The reader takes either alphabet. */
  function Value(c: char): Option<Digit> {
    if 'A' <= c <= 'Z' then Some(c as int - 'A' as int)
    else if 'a' <= c <= 'z' then Some(c as int - 'a' as int + 26)
    else if '0' <= c <= '9' then Some(c as int - '0' as int + 52)
    else if c == '+' || c == '-' then Some(62)
    else if c == '/' || c == '_' then Some(63)
    else None
  }

  /** Table 1 of RFC 4648 by code points, read back with the two other symbols of table 2. */
  lemma SymbolExactly(d: Digit, c: char)
    ensures Symbol(d) as int ==
            if d <= 25 then 65 + d else if d <= 51 then 71 + d else if d <= 61 then d - 4
            else if d == 62 then 43 else 47
    ensures Value(c) == Some(d) <==> c == Symbol(d) || (d == 62 && c == '-') || (d == 63 && c == '_')
  {
  }

  // ----- groups of three bytes and four digits -----

  function Digits(bytes: seq<Byte>): (r: seq<Digit>)
    ensures |bytes| > 0 ==> |r| > 1
  {
    if |bytes| == 0 then []
    else if |bytes| == 1 then [bytes[0] / 4, bytes[0] % 4 * 16]
    else if |bytes| == 2 then [bytes[0] / 4, bytes[0] % 4 * 16 + bytes[1] / 16, bytes[1] % 16 * 4]
    else
      [bytes[0] / 4, bytes[0] % 4 * 16 + bytes[1] / 16, bytes[1] % 16 * 4 + bytes[2] / 64, bytes[2] % 64]
      + Digits(bytes[3..])
  }

  function Number(digits: seq<Digit>): int {
    if |digits| == 0 then 0 else Number(digits[..|digits| - 1]) * 64 + digits[|digits| - 1]
  }

  /** The digits of a group are its bits in sixes, filled up with zeros. */
  lemma GroupBits(bytes: seq<Byte>)
    ensures |bytes| == 0 ==> Digits(bytes) == []
    ensures |bytes| == 1 ==> |Digits(bytes)| == 2 && Number(Digits(bytes)) == (bytes[0] as int) * 16
    ensures |bytes| == 2 ==>
              |Digits(bytes)| == 3 && Number(Digits(bytes)) == ((bytes[0] as int) * 256 + bytes[1]) * 4
    ensures |bytes| >= 3 ==>
              && |Digits(bytes)| >= 4 && Digits(bytes)[4..] == Digits(bytes[3..])
              && Number(Digits(bytes)[..4]) == (bytes[0] as int) * 65536 + (bytes[1] as int) * 256 + bytes[2]
  {
    var d := Digits(bytes);
    if |bytes| > 0 {
      NumberOf(if |d| <= 3 then d else d[..4]);
    }
  }

  lemma NumberOf(d: seq<Digit>)
    ensures |d| == 2 ==> Number(d) == (d[0] as int) * 64 + d[1]
    ensures |d| == 3 ==> Number(d) == ((d[0] as int) * 64 + d[1]) * 64 + d[2]
    ensures |d| == 4 ==> Number(d) == (((d[0] as int) * 64 + d[1]) * 64 + d[2]) * 64 + d[3]
  {
    assert |d| >= 1 ==> d[..|d| - 1][..0] == [];
    if |d| >= 2 && |d| <= 4 {
      assert Number(d[..1]) == d[0] by { assert d[..1][..0] == []; }
      assert d[..2][..1] == d[..1];
      assert |d| >= 3 ==> d[..3][..2] == d[..2];
      assert d[..|d|] == d;
    }
  }

  function First(a: Digit, b: Digit): Byte {
    (a as int) * 4 + b / 16
  }

  function Second(b: Digit, c: Digit): Byte {
    (b % 16) as int * 16 + c / 4
  }

  function Third(c: Digit, d: Digit): Byte {
    (c % 4) as int * 64 + d
  }

  function Bytes(digits: seq<Digit>): seq<Byte> {
    if |digits| < 2 then []
    else if |digits| == 2 then [First(digits[0], digits[1])]
    else if |digits| == 3 then [First(digits[0], digits[1]), Second(digits[1], digits[2])]
    else
      [First(digits[0], digits[1]), Second(digits[1], digits[2]), Third(digits[2], digits[3])] + Bytes(digits[4..])
  }

  lemma {:induction false} BytesOfDigits(bytes: seq<Byte>)
    ensures Bytes(Digits(bytes)) == bytes
  {
    if |bytes| >= 3 {
      BytesOfDigits(bytes[3..]);
      assert Digits(bytes)[4..] == Digits(bytes[3..]);
      assert bytes == [bytes[0], bytes[1], bytes[2]] + bytes[3..];
    }
  }

  // ----- text -----

  function Text(digits: seq<Digit>): (r: string)
    ensures |r| == |digits|
    ensures forall i :: 0 <= i < |r| ==> r[i] == Symbol(digits[i])
  {
    seq(|digits|, i requires 0 <= i < |digits| => Symbol(digits[i]))
  }

  /** toString("base64"): padded to a multiple of four characters. */
  function Encode(bytes: seq<Byte>): string {
    Text(Digits(bytes)) + if |bytes| % 3 == 1 then "==" else if |bytes| % 3 == 2 then "=" else ""
  }

  lemma {:induction false} DigitCount(bytes: seq<Byte>)
    ensures |Digits(bytes)| == (4 * |bytes| + 2) / 3
    decreases |bytes|
  {
    if |bytes| >= 3 {
      DigitCount(bytes[3..]);
    }
  }

  /** The text is as long as the groups of three bytes begun times four, filled up with equal signs. */
  lemma PaddedToFours(bytes: seq<Byte>)
    ensures |Encode(bytes)| == (|bytes| + 2) / 3 * 4
    ensures forall i :: |Digits(bytes)| <= i < |Encode(bytes)| ==> Encode(bytes)[i] == '='
  {
    DigitCount(bytes);
    hide Digits;
  }

  /** The digits of a text; other characters, the padding among them, are passed over. */
  function DigitsIn(text: string): seq<Digit> {
    if |text| == 0 then []
    else (if Value(text[0]).Some? then [Value(text[0]).value] else []) + DigitsIn(text[1..])
  }

  /** Buffer.from(text, "base64"), and "base64url" alike. */
  function Decode(text: string): seq<Byte> {
    Bytes(DigitsIn(text))
  }

  lemma {:induction false} DigitsInAppend(a: string, b: string)
    ensures DigitsIn(a + b) == DigitsIn(a) + DigitsIn(b)
  {
    if |a| == 0 {
      assert a + b == b;
    } else {
      assert (a + b)[1..] == a[1..] + b;
      DigitsInAppend(a[1..], b);
    }
  }

  lemma {:induction false} DigitsInText(digits: seq<Digit>, text: string)
    requires |text| == |digits|
    requires forall i :: 0 <= i < |text| ==> Value(text[i]) == Some(digits[i])
    ensures DigitsIn(text) == digits
  {
    if |text| != 0 {
      assert forall i :: 0 <= i < |text[1..]| ==> text[1..][i] == text[i + 1] && digits[1..][i] == digits[i + 1];
      DigitsInText(digits[1..], text[1..]);
      assert digits == [digits[0]] + digits[1..];
    }
  }

  lemma {:induction false} NoDigitsIn(text: string)
    requires forall i :: 0 <= i < |text| ==> text[i] == '='
    ensures DigitsIn(text) == []
  {
    if |text| != 0 {
      assert forall i :: 0 <= i < |text[1..]| ==> text[1..][i] == text[i + 1];
      NoDigitsIn(text[1..]);
    }
  }

  lemma DecodeEncode(bytes: seq<Byte>)
    ensures Decode(Encode(bytes)) == bytes
  {
    var text := Text(Digits(bytes));
    var padding := Encode(bytes)[|text|..];
    DigitsInText(Digits(bytes), text);
    NoDigitsIn(padding);
    DigitsInAppend(text, padding);
    assert Encode(bytes) == text + padding;
    assert DigitsIn(Encode(bytes)) == Digits(bytes);
    BytesOfDigits(bytes);
  }

  // ----- the URL-safe form -----

  function ReplaceAll(s: string, from: char, to: char): (r: string)
    ensures |r| == |s|
    ensures forall i :: 0 <= i < |s| ==> r[i] == if s[i] == from then to else s[i]
  {
    seq(|s|, i requires 0 <= i < |s| => if s[i] == from then to else s[i])
  }

  function Without(s: string, c: char): string {
    Filter(d => d != c, s)
  }

  /** base64Url on a buffer. */
  function Base64Url(bytes: seq<Byte>): string {
    Without(ReplaceAll(ReplaceAll(Encode(bytes), '+', '-'), '/', '_'), '=')
  }

  function PadEnd(s: string, length: nat, c: char): (r: string)
    ensures s <= r && |r| == (if |s| < length then length else |s|) && forall i :: |s| <= i < |r| ==> r[i] == c
  {
    if |s| >= length then s else s + seq(length - |s|, _ => c)
  }

  function Base64UrlToBuffer(value: string): seq<Byte> {
    var normalized := ReplaceAll(ReplaceAll(value, '-', '+'), '_', '/');
    Decode(PadEnd(normalized, |normalized| + (4 - |normalized| % 4) % 4, '='))
  }

  predicate UrlChar(c: char) {
    'A' <= c <= 'Z' || 'a' <= c <= 'z' || '0' <= c <= '9' || c == '-' || c == '_'
  }

  lemma {:induction false} WithoutPadding(text: string, padding: string)
    requires forall i :: 0 <= i < |text| ==> text[i] != '='
    requires forall i :: 0 <= i < |padding| ==> padding[i] == '='
    ensures Without(text + padding, '=') == text
    decreases |padding|
  {
    if |padding| == 0 {
      assert text + padding == text;
      KeepAll(text);
    } else {
      var last := |padding| - 1;
      assert text + padding == (text + padding[..last]) + [padding[last]];
      FilterAppend(d => d != '=', text + padding[..last], padding[last]);
      WithoutPadding(text, padding[..last]);
    }
  }

  lemma {:induction false} KeepAll(text: string)
    requires forall i :: 0 <= i < |text| ==> text[i] != '='
    ensures Without(text, '=') == text
  {
    if |text| != 0 {
      assert forall i :: 0 <= i < |text[1..]| ==> text[1..][i] == text[i + 1];
      KeepAll(text[1..]);
      assert text == [text[0]] + text[1..];
    }
  }

  /** The URL-safe text is the digits in the other alphabet, nothing else. */
  lemma UrlText(bytes: seq<Byte>)
    ensures |Base64Url(bytes)| == |Digits(bytes)|
    ensures forall i :: 0 <= i < |Base64Url(bytes)| ==>
              UrlChar(Base64Url(bytes)[i]) && Value(Base64Url(bytes)[i]) == Some(Digits(bytes)[i])
  {
    hide Digits, Without;
    var n := |Digits(bytes)|;
    var replaced := ReplaceAll(ReplaceAll(Encode(bytes), '+', '-'), '/', '_');
    WithoutPadding(replaced[..n], replaced[n..]);
    assert replaced == replaced[..n] + replaced[n..];
  }

  lemma PaddedDigits(value: string, digits: seq<Digit>)
    requires |value| == |digits| && forall i :: 0 <= i < |value| ==> Value(value[i]) == Some(digits[i])
    ensures Base64UrlToBuffer(value) == Bytes(digits)
  {
    hide DigitsIn, Bytes;
    var normalized := ReplaceAll(ReplaceAll(value, '-', '+'), '_', '/');
    DigitsInText(digits, normalized);
    var padded := PadEnd(normalized, |normalized| + (4 - |normalized| % 4) % 4, '=');
    NoDigitsIn(padded[|normalized|..]);
    DigitsInAppend(normalized, padded[|normalized|..]);
    assert padded == normalized + padded[|normalized|..];
    assert DigitsIn(padded) == digits;
  }

  /** base64UrlToBuffer undoes base64Url on every byte sequence, and so does Buffer's own reader. */
  lemma UrlRoundTrip(bytes: seq<Byte>)
    ensures Base64UrlToBuffer(Base64Url(bytes)) == bytes
    ensures Decode(Base64Url(bytes)) == bytes
  {
    hide Base64Url, Base64UrlToBuffer;
    UrlText(bytes);
    BytesOfDigits(bytes);
    DigitsInText(Digits(bytes), Base64Url(bytes));
    PaddedDigits(Base64Url(bytes), Digits(bytes));
  }
}

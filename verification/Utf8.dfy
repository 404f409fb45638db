/** UTF-8 (RFC 3629) over Unicode scalar values, strict as decodeURIComponent reads it and lenient as Buffer does. */
module Utf8 {
  import opened Prelude
  import opened Base64

  function EncodeChar(c: char): (r: seq<Byte>)
    ensures 1 <= |r| <= 4
  {
    var x := c as int;
    if x < 0x80 then [x]
    else if x < 0x800 then [0xC0 + x / 64, 0x80 + x % 64]
    else if x < 0x10000 then [0xE0 + x / 4096, 0x80 + x / 64 % 64, 0x80 + x % 64]
    else [0xF0 + x / 262144, 0x80 + x / 4096 % 64, 0x80 + x / 64 % 64, 0x80 + x % 64]
  }

  /** How many bytes a lead byte announces; 0 for a byte that cannot lead. */
  function LeadLength(b: Byte): (n: nat)
    ensures n <= 4
  {
    if b < 0x80 then 1
    else if b < 0xC0 then 0
    else if b < 0xE0 then 2
    else if b < 0xF0 then 3
    else if b < 0xF8 then 4
    else 0
  }

  function Bits(b: Byte): int {
    b % 64
  }

  predicate Continues(b: Byte) {
    0x80 <= b < 0xC0
  }

  predicate Scalar(x: int) {
    0 <= x < 0xD800 || 0xE000 <= x < 0x110000
  }

  /** The character a sequence starts with: no overlong form, no surrogate, nothing beyond U+10FFFF. */
  function DecodeChar(bytes: seq<Byte>): (r: Option<char>)
    ensures r.Some? ==> |bytes| > 0 && 1 <= LeadLength(bytes[0]) <= |bytes|
  {
    if |bytes| == 0 then None else
    var n := LeadLength(bytes[0]);
    if n == 0 || |bytes| < n || exists i :: 1 <= i < n && !Continues(bytes[i]) then None else
    var x :=
      if n == 1 then bytes[0]
      else if n == 2 then bytes[0] % 32 * 64 + Bits(bytes[1])
      else if n == 3 then bytes[0] % 16 * 4096 + Bits(bytes[1]) * 64 + Bits(bytes[2])
      else bytes[0] % 8 * 262144 + Bits(bytes[1]) * 4096 + Bits(bytes[2]) * 64 + Bits(bytes[3]);
    var least := if n == 1 then 0 else if n == 2 then 0x80 else if n == 3 then 0x800 else 0x10000;
    if x < least || !Scalar(x) then None else Some(x as char)
  }

  lemma SixBits(x: int)
    requires 0 <= x < 0x200000
    ensures x == x / 64 * 64 + x % 64
    ensures x == x / 4096 * 4096 + x / 64 % 64 * 64 + x % 64
    ensures x == x / 262144 * 262144 + x / 4096 % 64 * 4096 + x / 64 % 64 * 64 + x % 64
  {
    assert x / 64 == x / 4096 * 64 + x / 64 % 64;
    assert x / 4096 == x / 262144 * 64 + x / 4096 % 64;
  }

  lemma TwoBytes(a: Byte, b: Byte, x: int)
    requires 0xC0 <= a < 0xE0 && Continues(b) && x == (a - 0xC0) as int * 64 + (b - 0x80) as int && x >= 0x80
    ensures DecodeChar([a, b]) == Some(x as char)
  {
    assert a % 32 == a - 0xC0 && Bits(b) == b - 0x80;
  }

  lemma ThreeBytes(a: Byte, b: Byte, c: Byte, x: int)
    requires 0xE0 <= a < 0xF0 && Continues(b) && Continues(c) && Scalar(x) && x >= 0x800
    requires x == (a - 0xE0) as int * 4096 + (b - 0x80) as int * 64 + (c - 0x80) as int
    ensures DecodeChar([a, b, c]) == Some(x as char)
  {
    assert a % 16 == a - 0xE0 && Bits(b) == b - 0x80 && Bits(c) == c - 0x80;
  }

  lemma FourBytes(a: Byte, b: Byte, c: Byte, d: Byte, x: int)
    requires 0xF0 <= a < 0xF8 && Continues(b) && Continues(c) && Continues(d) && Scalar(x) && x >= 0x10000
    requires x == (a - 0xF0) as int * 262144 + (b - 0x80) as int * 4096 + (c - 0x80) as int * 64 + (d - 0x80) as int
    ensures DecodeChar([a, b, c, d]) == Some(x as char)
  {
    assert a % 8 == a - 0xF0 && Bits(b) == b - 0x80 && Bits(c) == c - 0x80 && Bits(d) == d - 0x80;
  }

  lemma DecodeOne(c: char)
    ensures var bytes := EncodeChar(c); LeadLength(bytes[0]) == |bytes| && DecodeChar(bytes) == Some(c)
  {
    var x := c as int;
    SixBits(x);
    if x < 0x80 {
    } else if x < 0x800 {
      TwoBytes(0xC0 + x / 64, 0x80 + x % 64, x);
    } else if x < 0x10000 {
      ThreeBytes(0xE0 + x / 4096, 0x80 + x / 64 % 64, 0x80 + x % 64, x);
    } else {
      FourBytes(0xF0 + x / 262144, 0x80 + x / 4096 % 64, 0x80 + x / 64 % 64, 0x80 + x % 64, x);
    }
  }

  lemma DecodeFront(bytes: seq<Byte>, rest: seq<Byte>)
    requires |bytes| > 0 && LeadLength(bytes[0]) == |bytes|
    ensures DecodeChar(bytes + rest) == DecodeChar(bytes)
  {
    assert forall i :: 0 <= i < |bytes| ==> (bytes + rest)[i] == bytes[i];
  }

  lemma DecodeEncodeChar(c: char, rest: seq<Byte>)
    ensures DecodeChar(EncodeChar(c) + rest) == Some(c)
    ensures LeadLength(EncodeChar(c)[0]) == |EncodeChar(c)|
  {
    DecodeOne(c);
    DecodeFront(EncodeChar(c), rest);
  }

  lemma BackTwo(p: int, q: int, x: int)
    requires 0 <= p && 0 <= q < 64 && x == p * 64 + q
    ensures x / 64 == p && x % 64 == q
  {
  }

  lemma BackThree(p: int, q: int, r: int, x: int)
    requires 0 <= p && 0 <= q < 64 && 0 <= r < 64 && x == p * 4096 + q * 64 + r
    ensures x / 4096 == p && x / 64 % 64 == q && x % 64 == r
  {
    BackTwo(p * 64 + q, r, x);
    BackTwo(p, q, x / 64);
    assert x / 4096 == x / 64 / 64;
  }

  lemma BackFour(p: int, q: int, r: int, t: int, x: int)
    requires 0 <= p && 0 <= q < 64 && 0 <= r < 64 && 0 <= t < 64
    requires x == p * 262144 + q * 4096 + r * 64 + t
    ensures x / 262144 == p && x / 4096 % 64 == q && x / 64 % 64 == r && x % 64 == t
  {
    BackThree(p * 64 + q, r, t, x);
    BackTwo(p, q, x / 4096);
    assert x / 262144 == x / 4096 / 64;
  }

  lemma DecodedTwo(a: Byte, b: Byte, c: char)
    requires 0xC0 <= a < 0xE0 && Continues(b) && DecodeChar([a, b]) == Some(c)
    ensures EncodeChar(c) == [a, b]
  {
    BackTwo(a - 0xC0, b - 0x80, c as int);
  }

  lemma DecodedThree(a: Byte, b: Byte, d: Byte, c: char)
    requires 0xE0 <= a < 0xF0 && Continues(b) && Continues(d) && DecodeChar([a, b, d]) == Some(c)
    ensures EncodeChar(c) == [a, b, d]
  {
    BackThree(a - 0xE0, b - 0x80, d - 0x80, c as int);
  }

  lemma DecodedFour(a: Byte, b: Byte, d: Byte, e: Byte, c: char)
    requires 0xF0 <= a < 0xF8 && Continues(b) && Continues(d) && Continues(e) && DecodeChar([a, b, d, e]) == Some(c)
    ensures EncodeChar(c) == [a, b, d, e]
  {
    BackFour(a - 0xF0, b - 0x80, d - 0x80, e - 0x80, c as int);
  }

  /** A character is read exactly where its encoding stands: no overlong form, no stray byte, no surrogate. */
  lemma DecodeCharExactly(bytes: seq<Byte>, c: char)
    ensures DecodeChar(bytes) == Some(c) <==> EncodeChar(c) <= bytes
  {
    if EncodeChar(c) <= bytes {
      var rest := bytes[|EncodeChar(c)|..];
      assert bytes == EncodeChar(c) + rest;
      DecodeEncodeChar(c, rest);
    }
    if DecodeChar(bytes) == Some(c) {
      var n := LeadLength(bytes[0]);
      var front := bytes[..n];
      assert bytes == front + bytes[n..];
      DecodeFront(front, bytes[n..]);
      assert forall i :: 1 <= i < n ==> Continues(bytes[i]);
      if n == 1 {
        assert front == [bytes[0]];
      } else if n == 2 {
        assert front == [bytes[0], bytes[1]];
        DecodedTwo(bytes[0], bytes[1], c);
      } else if n == 3 {
        assert front == [bytes[0], bytes[1], bytes[2]];
        DecodedThree(bytes[0], bytes[1], bytes[2], c);
      } else {
        assert front == [bytes[0], bytes[1], bytes[2], bytes[3]];
        DecodedFour(bytes[0], bytes[1], bytes[2], bytes[3], c);
      }
    }
  }

  function Encode(s: string): seq<Byte> {
    if |s| == 0 then [] else EncodeChar(s[0]) + Encode(s[1..])
  }

  /** Buffer.toString("utf8"): a byte that starts no character reads as U+FFFD. */
  function Decode(bytes: seq<Byte>): string {
    if |bytes| == 0 then ""
    else if DecodeChar(bytes).Some? then
      [DecodeChar(bytes).value] + Decode(bytes[LeadLength(bytes[0])..])
    else ['\U{FFFD}'] + Decode(bytes[1..])
  }

  lemma {:induction false} RoundTrip(s: string)
    ensures Decode(Encode(s)) == s
  {
    if |s| != 0 {
      DecodeEncodeChar(s[0], Encode(s[1..]));
      assert Encode(s)[|EncodeChar(s[0])|..] == Encode(s[1..]);
      assert Encode(s)[0] == EncodeChar(s[0])[0];
      RoundTrip(s[1..]);
      assert s == [s[0]] + s[1..];
    }
  }

  lemma Injective(a: string, b: string)
    requires Encode(a) == Encode(b)
    ensures a == b
  {
    RoundTrip(a);
    RoundTrip(b);
  }
}

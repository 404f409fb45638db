/** The example BFF's sealed cookies: JSON, base64url and an HMAC, read back from the Cookie header. */
module SealedCookie {
  import opened Prelude
  import opened Base64
  import opened Json
  import Canonical
  import Cookies
  import Utf8

  /** HMAC-SHA256 of a payload under a secret; its digest has 32 bytes. */
  type Mac = (string, string) -> seq<Byte>

  ghost predicate Digests(mac: Mac) {
    forall payload, secret :: |mac(payload, secret)| == 32
  }

  function Sign(mac: Mac, payload: string, secret: string): string {
    Base64Url(mac(payload, secret))
  }

  /** JSON.stringify leaves out members that are undefined. */
  function Seal(mac: Mac, value: Value, secret: string): string {
    var payload := Base64Url(Utf8.Encode(Print(Canonical.Drop(value))));
    payload + "." + Sign(mac, payload, secret)
  }

  datatype Unsealed = Opened(value: Value) | MissingCookie | InvalidCookie | InvalidSignature | InvalidJson

  function Unseal(mac: Mac, sealedText: Option<string>, secret: string): Unsealed {
    if sealedText.None? || sealedText.value == "" then MissingCookie else
    var parts := Split(sealedText.value, '.');
    if |parts| < 2 || parts[0] == "" || parts[1] == "" then InvalidCookie else
    if Utf8.Encode(parts[1]) != Utf8.Encode(Sign(mac, parts[0], secret)) then InvalidSignature else
    var value := ParseText(Utf8.Decode(Base64UrlToBuffer(parts[0])));
    if value.None? then InvalidJson else Opened(value.value)
  }

  lemma UrlCharsOnly(bytes: seq<Byte>)
    ensures forall c :: c in Base64Url(bytes) ==> UrlChar(c)
    ensures |bytes| > 0 ==> Base64Url(bytes) != ""
  {
    UrlText(bytes);
  }

  // ----- what stringify keeps -----

  lemma {:induction false} DroppedIsJson(v: Value)
    requires WellFormed(v) && !v.Undefined?
    ensures IsJson(Canonical.Drop(v))
    decreases v, 1
  {
    match v
    case Arr(items) => DroppedItemsAreJson(items);
    case Obj(ms) => DroppedMembersAreJson(ms);
    case _ =>
  }

  lemma {:induction false} DroppedItemsAreJson(vs: seq<Value>)
    requires AllWellFormed(vs)
    ensures AllWellFormed(Canonical.DropItems(vs)) && NoneUndefined(Canonical.DropItems(vs))
    decreases vs, 0
  {
    if |vs| != 0 {
      if !vs[0].Undefined? {
        DroppedIsJson(vs[0]);
      }
      DroppedItemsAreJson(vs[1..]);
      assert Canonical.DropItems(vs)[1..] == Canonical.DropItems(vs[1..]);
    }
  }

  lemma {:induction false} DroppedMembersAreJson(ms: seq<Member>)
    requires Distinct(Keys(ms)) && AllMembersWellFormed(ms)
    ensures var ns := Canonical.DropMembers(ms);
            && Distinct(Keys(ns)) && AllMembersWellFormed(ns) && NoMemberUndefined(ns)
            && forall k :: Canonical.HasKey(ns, k) ==> Canonical.HasKey(ms, k)
    decreases ms, 0
  {
    if |ms| != 0 {
      var rest := ms[1..];
      Canonical.DistinctTail(ms);
      DroppedMembersAreJson(rest);
      Canonical.KeysOfCons(ms[0], rest);
      assert ms == [ms[0]] + rest;
      if !ms[0].value.Undefined? {
        var m, ns := Member(ms[0].key, Canonical.Drop(ms[0].value)), Canonical.DropMembers(rest);
        DroppedIsJson(ms[0].value);
        Canonical.KeysOfCons(m, ns);
        assert ([m] + ns)[1..] == ns;
        Canonical.DistinctTail([m] + ns);
      }
    }
  }

  // ----- round trips -----

  /**
   Opening what was sealed under the same secret gives the value as JSON keeps it, and no part of the text after it
   matters.
   */
  lemma SealedOpens(mac: Mac, value: Value, secret: string, tail: string)
    requires Digests(mac) && WellFormed(value) && !value.Undefined?
    requires tail == "" || tail[0] == '.'
    ensures Unseal(mac, Some(Seal(mac, value, secret) + tail), secret) == Opened(Canonical.Drop(value))
  {
    var dropped := Canonical.Drop(value);
    DroppedIsJson(value);
    RoundTrip(dropped);
    var text := Print(dropped);
    PrintStarts(dropped);
    var bytes := Utf8.Encode(text);
    Utf8.RoundTrip(text);
    var payload := Base64Url(bytes);
    var signature := Sign(mac, payload, secret);
    UrlCharsOnly(bytes);
    UrlCharsOnly(mac(payload, secret));
    UrlRoundTrip(bytes);
    assert bytes != [] by {
      assert |Utf8.EncodeChar(text[0])| > 0;
    }
    CutInTwo(payload, signature, tail);
  }

  lemma CutInTwo(payload: string, signature: string, tail: string)
    requires '.' !in payload && '.' !in signature && (tail == "" || tail[0] == '.')
    ensures var parts := Split(payload + "." + signature + tail, '.');
            |parts| >= 2 && parts[0] == payload && parts[1] == signature
  {
    assert payload + "." + signature + tail == payload + ['.'] + (signature + tail);
    SplitFirst(payload, '.', signature + tail);
    if tail == "" {
      assert signature + tail == signature;
    } else {
      assert signature + tail == signature + ['.'] + tail[1..];
      SplitFirst(signature, '.', tail[1..]);
    }
  }

  /** unseal gives back the very value that was sealed exactly when no undefined hides in it. */
  lemma UnsealUndoesSealExactly(mac: Mac, value: Value, secret: string)
    requires Digests(mac) && WellFormed(value) && !value.Undefined?
    ensures Unseal(mac, Some(Seal(mac, value, secret)), secret) == Opened(value) <==> NoUndefined(value)
  {
    SealedOpens(mac, value, secret, "");
    assert Seal(mac, value, secret) + "" == Seal(mac, value, secret);
    DroppedIsJson(value);
    if NoUndefined(value) {
      Canonical.DropNothing(value);
    }
  }

  /** What becomes of any cookie text. */
  lemma UnsealOutcomes(mac: Mac, sealedText: Option<string>, secret: string)
    ensures var r := Unseal(mac, sealedText, secret);
            && (r.MissingCookie? <==> sealedText == None || sealedText == Some(""))
            && (!r.MissingCookie? ==>
                  var parts := Split(sealedText.value, '.');
                  var readable := |parts| >= 2 && |parts[0]| > 0 && |parts[1]| > 0;
                  && (r.InvalidCookie? <==> !readable)
                  && (r.InvalidSignature? <==> readable && parts[1] != Base64Url(mac(parts[0], secret)))
                  && (r.Opened? ==> ParseText(Utf8.Decode(Base64UrlToBuffer(parts[0]))) == Some(r.value)))
  {
    if sealedText.Some? {
      var parts := Split(sealedText.value, '.');
      if |parts| >= 2 {
        if Utf8.Encode(parts[1]) == Utf8.Encode(Sign(mac, parts[0], secret)) {
          Utf8.Injective(parts[1], Sign(mac, parts[0], secret));
        }
      }
    }
  }

  /** Whatever text opens carries its own payload's signature under the secret. */
  lemma OnlySignedTextOpens(mac: Mac, text: string, secret: string)
    requires Unseal(mac, Some(text), secret).Opened? || Unseal(mac, Some(text), secret).InvalidJson?
    ensures var parts := Split(text, '.'); |parts| >= 2 && parts[1] == Sign(mac, parts[0], secret)
  {
    var parts := Split(text, '.');
    Utf8.Injective(parts[1], Sign(mac, parts[0], secret));
  }

  /** A sealed value set as a cookie and sent back among any other well-formed cookies opens to the value. */
  lemma SealedCookieSurvives(mac: Mac, value: Value, secret: string, name: string, pairs: seq<Cookies.Pair>, i: nat)
    requires Digests(mac) && IsJson(value)
    requires Cookies.WellFormed(Cookies.Pair(name, "")) && name != PROTO
    requires i < |pairs| && pairs[i] == Cookies.Pair(name, Cookies.EncodeURIComponent(Seal(mac, value, secret)))
    requires Cookies.LastOfItsName(pairs, i)
    requires forall j :: 0 <= j < |pairs| && j != i ==> Cookies.WellFormed(pairs[j])
    ensures var cookies := Cookies.Collect(Cookies.ReadItem, Split(Cookies.CookieHeader(pairs), ';'));
            name in cookies && Unseal(mac, Some(cookies[name]), secret) == Opened(value)
  {
    hide Seal, Unseal, Cookies.Collect, Cookies.CookieHeader, Split;
    Cookies.PrintedCookieIsRead(name, Seal(mac, value, secret), pairs, i);
    UnsealUndoesSealExactly(mac, value, secret);
  }
}

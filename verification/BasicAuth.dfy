/** Basic credentials (section 2 of RFC 7617): the SDK's printer and the server's reader. */
module BasicAuth {
  import opened Prelude
  import opened Base64
  import Utf8

  const SCHEME := "Basic "

  function ToBasic(clientId: string, clientSecret: string): string {
    SCHEME + Encode(Utf8.Encode(clientId + ":" + clientSecret))
  }

  datatype Parsed = Credentials(clientId: string, clientSecret: string) | AuthenticationRequired | InvalidFormat

  function ParseOAuthClientBasicAuth(authorization: Option<string>): Parsed {
    if authorization.None? || !(SCHEME <= authorization.value) then AuthenticationRequired else
    var encoded := Trim(authorization.value[|SCHEME|..]);
    var decoded := Utf8.Decode(Decode(encoded));
    var separator := IndexOf(decoded, ':');
    if separator < 1 then InvalidFormat else Credentials(decoded[..separator], decoded[separator + 1..])
  }

  /**
   What the reader makes of any header: without the scheme, credentials are missing; otherwise the decoded text is cut
   at its first colon, which must not be its first character.
   */
  lemma ReadsExactly(authorization: Option<string>)
    ensures var r := ParseOAuthClientBasicAuth(authorization);
            && (r.AuthenticationRequired? <==>
                  authorization == None || |authorization.value| < 6 || authorization.value[..6] != "Basic ")
            && (!r.AuthenticationRequired? ==>
                  var decoded := Utf8.Decode(Decode(Trim(authorization.value[6..])));
                  && (r.Credentials? ==>
                        decoded == r.clientId + ":" + r.clientSecret && r.clientId != "" && ':' !in r.clientId)
                  && (r.InvalidFormat? <==> ':' !in decoded || decoded[0] == ':'))
  {
    if authorization.Some? && |authorization.value| >= 6 {
      assert "Basic " <= authorization.value <==> authorization.value[..6] == "Basic ";
    }
    if authorization.Some? && "Basic " <= authorization.value {
      var decoded := Utf8.Decode(Decode(Trim(authorization.value[6..])));
      var i := IndexOf(decoded, ':');
      assert i >= 0 ==> decoded == decoded[..i] + ":" + decoded[i + 1..];
      assert ':' in decoded && decoded[0] != ':' ==> i >= 1;
    }
  }

  lemma {:induction false} EncodedIsTrimmed(bytes: seq<Byte>)
    ensures Trimmed(Encode(bytes))
  {
    var text := Text(Digits(bytes));
    assert forall d: Digit :: !IsSpace(Symbol(d));
    assert forall i :: 0 <= i < |text| ==> !IsSpace(text[i]);
  }

  /** The reader gets the text back that the printer encoded. */
  lemma SameText(plain: string)
    ensures Utf8.Decode(Decode(Trim((SCHEME + Encode(Utf8.Encode(plain)))[|SCHEME|..]))) == plain
  {
    var encoded := Encode(Utf8.Encode(plain));
    EncodedIsTrimmed(Utf8.Encode(plain));
    TrimKeeps(encoded);
    DecodeEncode(Utf8.Encode(plain));
    Utf8.RoundTrip(plain);
    hide Encode, Decode, Trim, Utf8.Encode, Utf8.Decode;
    assert (SCHEME + encoded)[|SCHEME|..] == encoded;
  }

  /** Cut at its first colon, the text gives the pair back exactly when the id holds no colon. */
  lemma CutBack(clientId: string, clientSecret: string)
    ensures var plain := clientId + ":" + clientSecret;
            var i := IndexOf(plain, ':');
            && i >= 0
            && (':' !in clientId ==> i == |clientId| && plain[..i] == clientId && plain[i + 1..] == clientSecret)
            && (':' in clientId ==> plain[..i] != clientId)
  {
    var plain := clientId + ":" + clientSecret;
    assert plain == clientId + [':'] + clientSecret;
    assert plain[|clientId|] == ':';
    if ':' !in clientId {
      IndexOfFirst(clientId, ':', clientSecret);
    }
  }

  /** The reader undoes the printer exactly for ids that are not empty and hold no colon, whatever the secret. */
  lemma BasicRoundTripsExactly(clientId: string, clientSecret: string)
    ensures ParseOAuthClientBasicAuth(Some(ToBasic(clientId, clientSecret))) == Credentials(clientId, clientSecret)
            <==> clientId != "" && ':' !in clientId
  {
    SameText(clientId + ":" + clientSecret);
    CutBack(clientId, clientSecret);
    hide Encode, Decode, Trim, Utf8.Encode, Utf8.Decode, IndexOf;
  }
}

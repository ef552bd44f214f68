/** Page tokens and pages (src/api/paging.rs). A token is the Borsh bytes of
    `{id: i32, ts: u128}` written as padded base64url. It carries no signature
    and no expiry: `decode` returns whatever id the bytes hold. */
module Paging {
  import opened Base
  import opened Errors
  import Base64
  import Borsh

  /** `PageToken`: the cursor id and the time the token was made, in
      milliseconds since the Unix epoch. */
  datatype PageToken = PageToken(id: i32, ts: u128)

  /** A page of a list endpoint (`Page::new` is this constructor). */
  datatype Page<T> = Page(prevPage: Option<string>, nextPage: Option<string>, data: seq<T>)

  /** `borsh::to_vec`: the fields in declaration order, `id` in four bytes and
      `ts` in sixteen. */
  function TokenBytes(t: PageToken): (bs: seq<byte>)
    ensures |bs| == 20
  {
    Borsh.I32Bytes(t.id) + Borsh.U128Bytes(t.ts)
  }

  /** `borsh::from_slice::<PageToken>`: fails unless the input is exactly
      twenty bytes (too few to read both fields, or bytes left over). */
  function TokenFromBytes(bs: seq<byte>): (r: Option<PageToken>)
    ensures r.Some? <==> |bs| == 20
  {
    if |bs| != 20 then None
    else Some(PageToken(Borsh.I32From(bs[..4]), Borsh.U128From(bs[4..])))
  }

  /** The Borsh layout is a bijection between tokens and twenty-byte strings. */
  lemma TokenBytesRoundTrip(t: PageToken, bs: seq<byte>)
    ensures TokenFromBytes(TokenBytes(t)) == Some(t)
    ensures TokenFromBytes(bs) == Some(t) ==> TokenBytes(t) == bs
  {
    var out := TokenBytes(t);
    assert out[..4] == Borsh.I32Bytes(t.id) && out[4..] == Borsh.U128Bytes(t.ts);
    Borsh.I32RoundTrip(t.id, []);
    Borsh.U128RoundTrip(t.ts, []);
    if |bs| == 20 {
      Borsh.I32RoundTrip(t.id, bs[..4]);
      Borsh.U128RoundTrip(t.ts, bs[4..]);
      assert bs == bs[..4] + bs[4..];
    }
  }

  /** The text of a token. */
  function TokenText(t: PageToken): string {
    Base64.Encode(TokenBytes(t))
  }

  /** `PageToken::encode`, with the clock reading `now` passed in: no token
      for an id that is not positive. */
  function Encode(pageId: i32, now: u128): (r: Option<string>)
    ensures r.None? <==> pageId <= 0
  {
    if pageId <= 0 then None
    else Some(TokenText(PageToken(pageId, now)))
  }

  /** A token is 27 URL-safe symbols and one `=`. */
  lemma TokenShape(pageId: i32, now: u128)
    ensures var r := Encode(pageId, now);
      r.Some? ==> |r.value| == 28 && r.value[27] == Base64.PAD && forall i :: 0 <= i < 27 ==> Base64.IsUrlSafe(r.value[i])
  {
    Base64.EncodeShape(TokenBytes(PageToken(pageId, now)));
  }

  /** `PageToken::decode`: no token means the first page (cursor 1); text
      that is not canonical padded base64url is an internal error; base64 of
      anything but twenty bytes reaches `unwrap` and panics. */
  function Decode(token: Option<string>): (r: Outcome<Res<i32>>)
    ensures token.None? ==> r == Returned(Ok(1))
    ensures r.Returned? && r.value.Err? ==> r.value.error.Internal?
  {
    match token
    case None => Returned(Ok(1))
    case Some(text) =>
      match Base64.Decode(text)
      case Err(e) => Returned(Err(FromForeign(Base64Decode(Base64.DecodeErrorText(e)))))
      case Ok(bytes) =>
        match TokenFromBytes(bytes)
        case None => Panicked
        case Some(t) => Returned(Ok(t.id))
  }

  /** Round trip: every token `encode` hands out decodes to its page id,
      whatever the clock read. */
  lemma DecodeEncode(pageId: i32, now: u128)
    requires pageId > 0
    ensures Encode(pageId, now).Some?
    ensures Decode(Encode(pageId, now)) == Returned(Ok(pageId))
  {
    var t := PageToken(pageId, now);
    Base64.DecodeEncode(TokenBytes(t));
    TokenBytesRoundTrip(t, []);
  }

  /** Nothing is checked beyond the layout: the text of any `PageToken`,
      with any id (zero and negative ones included) and any timestamp
      (however old), decodes to that id. */
  lemma DecodeAnyToken(t: PageToken)
    ensures Decode(Some(TokenText(t))) == Returned(Ok(t.id))
  {
    Base64.DecodeEncode(TokenBytes(t));
    TokenBytesRoundTrip(t, []);
  }

  /** The texts that decode to an id are exactly the token texts: a decoded
      id came from the text of a token with that id. */
  lemma DecodedIdsComeFromTokens(text: string, id: i32)
    requires Decode(Some(text)) == Returned(Ok(id))
    ensures exists ts: u128 :: text == TokenText(PageToken(id, ts))
  {
    var bytes := Base64.Decode(text).value;
    var t := TokenFromBytes(bytes).value;
    Base64.EncodeDecode(text, bytes);
    TokenBytesRoundTrip(t, bytes);
    assert text == TokenText(PageToken(id, t.ts));
  }

  /** How a present token fails: `Err(Internal)` exactly when the text is not
      canonical padded base64url, and a panic exactly when it is base64 of
      anything but twenty bytes. */
  lemma DecodeFailures(text: string)
    ensures Decode(Some(text)) == Panicked
      <==> Base64.Decode(text).Ok? && |Base64.Decode(text).value| != 20
    ensures (Decode(Some(text)).Returned? && Decode(Some(text)).value.Err?)
      <==> Base64.Decode(text).Err?
  {
  }

  /** Concrete failures: the empty string is base64 of no bytes and panics;
      of the texts whose length is not a multiple of four, three symbols are
      a padding error, a character outside the alphabet is a symbol error,
      and a lone leftover symbol is a length error. */
  lemma DecodeExamples()
    ensures Decode(Some("")) == Panicked
    ensures Decode(Some("abc")) == Returned(Err(Internal("Invalid padding")))
    ensures Decode(Some("ab!")) == Returned(Err(Internal("Invalid symbol")))
    ensures Decode(Some("abcde")) == Returned(Err(Internal("Invalid input length")))
  {
    assert Base64.Decode("") == Ok([]);
    assert "abcde"[..4] == "abcd";
    assert Base64.Values("abcd", 0).Ok?;
  }
}

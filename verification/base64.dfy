/** The `URL_SAFE` engine of the `base64` crate as src/api/paging.rs uses it:
    the URL- and filename-safe alphabet of section 5 of RFC 4648, with `=`
    padding as in section 3.2, written on encode and required on decode, and
    canonical decoding (the unused low bits of the last symbol must be zero).

    The codec is split in two layers: bytes to 6-bit values and back
    (`Sextets`, `Unpack`), then values to symbols and back (`Symbols`,
    `Values`). */
module Base64 {
  import opened Base

  const PAD: char := '='

  /** The 64 symbols of the URL- and filename-safe alphabet. */
  predicate IsUrlSafe(c: char) {
    ('A' <= c <= 'Z') || ('a' <= c <= 'z') || ('0' <= c <= '9') || c == '-' || c == '_'
  }

  /** The symbol for a 6-bit value. */
  function Symbol(v: nat): (c: char)
    requires v < 64
    ensures IsUrlSafe(c)
  {
    if v < 26 then ('A' as int + v) as char
    else if v < 52 then ('a' as int + (v - 26)) as char
    else if v < 62 then ('0' as int + (v - 52)) as char
    else if v == 62 then '-'
    else '_'
  }

  /** The 6-bit value of a symbol; `None` for a character outside the alphabet. */
  function Value(c: char): (r: Option<nat>)
    ensures r.Some? <==> IsUrlSafe(c)
    ensures r.Some? ==> r.value < 64 && Symbol(r.value) == c
  {
    if 'A' <= c <= 'Z' then Some(c as int - 'A' as int)
    else if 'a' <= c <= 'z' then Some(c as int - 'a' as int + 26)
    else if '0' <= c <= '9' then Some(c as int - '0' as int + 52)
    else if c == '-' then Some(62)
    else if c == '_' then Some(63)
    else None
  }

  /** Symbols and values are inverse to each other. */
  lemma ValueOfSymbol(v: nat)
    requires v < 64
    ensures Value(Symbol(v)) == Some(v)
  {
  }

  predicate AllSextets(vs: seq<nat>) {
    forall i :: 0 <= i < |vs| ==> vs[i] < 64
  }

  /** How many 6-bit values a run of `n` bytes ends with beyond its whole
      groups: none for a whole number of groups of three bytes, two for one
      leftover byte, three for two. */
  function SextetRem(n: nat): nat {
    if n % 3 == 0 then 0 else n % 3 + 1
  }

  /** Bytes as 6-bit values, most significant bits first; a short last group
      is filled with zero bits. */
  function Sextets(b: seq<byte>): (vs: seq<nat>)
    ensures AllSextets(vs)
    decreases |b|
  {
    if |b| == 0 then []
    else if |b| == 1 then [b[0] / 4, b[0] % 4 * 16]
    else if |b| == 2 then [b[0] / 4, b[0] % 4 * 16 + b[1] / 16, b[1] % 16 * 4]
    else [b[0] / 4, b[0] % 4 * 16 + b[1] / 16, b[1] % 16 * 4 + b[2] / 64, b[2] % 64] + Sextets(b[3..])
  }

  /** The symbols of a run of values. */
  function Symbols(vs: seq<nat>): (s: string)
    requires AllSextets(vs)
    ensures |s| == |vs|
    ensures forall i :: 0 <= i < |vs| ==> s[i] == Symbol(vs[i])
  {
    seq(|vs|, i requires 0 <= i < |vs| => Symbol(vs[i]))
  }

  /** Padding after a run of `n` bytes: none for a whole number of groups,
      `==` after one leftover byte, `=` after two. */
  function PadCount(n: nat): nat {
    (3 - n % 3) % 3
  }

  function Pads(k: nat): (s: string)
    ensures |s| == k && forall i :: 0 <= i < k ==> s[i] == PAD
  {
    seq(k, _ => PAD)
  }

  /** `URL_SAFE.encode`. */
  function Encode(b: seq<byte>): (s: string)
    ensures |s| == 4 * ((|b| + 2) / 3)
  {
    SextetsLength(b);
    Symbols(Sextets(b)) + Pads(PadCount(|b|))
  }

  /** Why a string is not canonical padded base64url. */
  datatype DecodeError =
    | InvalidByte(offset: nat, symbol: char)
    | InvalidLength(length: nat)
    | InvalidLastSymbol(offset: nat, symbol: char)
    | InvalidPadding

  /** The error's display text (`DecodeError::to_string`), without the
      offending symbol, offset or length. */
  function DecodeErrorText(e: DecodeError): string {
    match e
    case InvalidByte(_, _) => "Invalid symbol"
    case InvalidLength(_) => "Invalid input length"
    case InvalidLastSymbol(_, _) => "Invalid last symbol"
    case InvalidPadding => "Invalid padding"
  }

  /** The number of padding characters the decoder strips from the end: at
      most two; a third one is left in place and rejected as a symbol. */
  function TrailingPads(s: string): (p: nat)
    ensures p <= 2 && p <= |s|
  {
    if |s| >= 1 && s[|s| - 1] == PAD then
      if |s| >= 2 && s[|s| - 2] == PAD then 2 else 1
    else 0
  }

  /** What the decoder strips is padding. */
  lemma TrailingPadsArePads(s: string)
    ensures forall i :: |s| - TrailingPads(s) <= i < |s| ==> s[i] == PAD
  {
  }

  /** `URL_SAFE.decode`: the length must be a multiple of four, every
      character before the padding must be in the alphabet, and the bits the
      last symbol carries beyond the last byte must be zero. */
  function Decode(s: string): (r: Result<seq<byte>, DecodeError>)
    ensures r.Ok? ==> |s| % 4 == 0
    ensures r.Err? && r.error.InvalidLength? ==> |s| % 4 == 1
    ensures r.Err? && r.error == InvalidPadding ==> |s| % 4 >= 2
  {
    if |s| % 4 != 0 then Err(ShortError(s))
    else
      var body := s[..|s| - TrailingPads(s)];
      ValuesErrorAt(body, 0);
      match Values(body, 0)
      case Err(e) => Err(e)
      case Ok(vs) =>
        match Unpack(vs, 0)
        case Err(k) => Err(InvalidLastSymbol(k, body[k]))
        case Ok(b) => Ok(b)
  }

  /** The error for a text whose length is not a multiple of four, in the
      decoder's order of checks: a last lone character outside the alphabet
      (and not `=`) first; then the whole quads before the leftover, where
      `=` is an invalid symbol too; then the one to three leftover
      characters. */
  function ShortError(s: string): (e: DecodeError)
    requires |s| % 4 != 0
    ensures e.InvalidLength? ==> |s| % 4 == 1
    ensures e == InvalidPadding ==> |s| % 4 >= 2
  {
    var n := |s| - |s| % 4;
    var last := s[|s| - 1];
    ValuesErrorAt(s[..n], 0);
    if |s| % 4 == 1 && last != PAD && !IsUrlSafe(last) then InvalidByte(|s| - 1, last)
    else
      match Values(s[..n], 0)
      case Err(e) => e
      case Ok(_) => LeftoverError(s[n..], n)
  }

  /** The leftover of one to three characters at `offset`: `=` in its first
      two places, or any other character outside the alphabet, is an invalid
      symbol; one symbol alone is too short; two symbols, or two and a third
      that is a symbol or `=`, are not padded to a quad. */
  function LeftoverError(t: string, offset: nat): (e: DecodeError)
    requires 1 <= |t| <= 3
    ensures e.InvalidLength? ==> |t| == 1
    ensures e == InvalidPadding ==> |t| >= 2
  {
    if !IsUrlSafe(t[0]) then InvalidByte(offset, t[0])
    else if |t| == 1 then InvalidLength(offset + 1)
    else if !IsUrlSafe(t[1]) then InvalidByte(offset + 1, t[1])
    else if |t| == 3 && t[2] != PAD && !IsUrlSafe(t[2]) then InvalidByte(offset + 2, t[2])
    else InvalidPadding
  }

  /** A text whose length is not a multiple of four is readable when every
      character is in the alphabet, except that a third leftover character
      may be `=`. */
  predicate ShortReadable(s: string) {
    forall i :: 0 <= i < |s| ==> IsUrlSafe(s[i]) || (i == |s| - 1 && |s| % 4 == 3 && s[i] == PAD)
  }

  /** The same for the leftover alone. */
  predicate LeftoverReadable(t: string) {
    forall i :: 0 <= i < |t| ==> IsUrlSafe(t[i]) || (i == 2 && t[i] == PAD)
  }

  /** What `ShortError` reports, in terms of the text: an invalid symbol
      names an unreadable character, and the other kinds go with the length. */
  predicate ShortErrorFits(s: string, e: DecodeError)
    requires |s| % 4 != 0
  {
    && (e.InvalidByte? <==> !ShortReadable(s))
    && (e.InvalidByte? ==>
          (e.offset < |s| && s[e.offset] == e.symbol && !IsUrlSafe(e.symbol)
           && !(e.offset == |s| - 1 && |s| % 4 == 3 && e.symbol == PAD)))
    && (e == InvalidLength(|s|) <==> ShortReadable(s) && |s| % 4 == 1)
    && (e == InvalidPadding <==> ShortReadable(s) && |s| % 4 >= 2)
  }

  /** Which error a text of such a length gets: an invalid symbol, at a
      character that is not readable, exactly when the text is not readable;
      otherwise a lone leftover symbol is an invalid length and two or three
      leftover characters are invalid padding. No such text decodes. */
  lemma ShortErrorKind(s: string)
    requires |s| % 4 != 0
    ensures Decode(s).Err?
    ensures ShortErrorFits(s, Decode(s).error)
  {
    var n := |s| - |s| % 4;
    var last := s[|s| - 1];
    if |s| % 4 == 1 && last != PAD && !IsUrlSafe(last) {
      assert !ShortReadable(s);
    } else {
      var r := Values(s[..n], 0);
      ValuesRead(s[..n], 0);
      if r.Err? {
        ValuesErrorAt(s[..n], 0);
        PrefixUnreadable(s, n, r.error.offset);
      } else {
        LeftoverKind(s[n..], n);
        ShortReadableSplit(s, n);
      }
    }
  }

  /** An unreadable character among the whole quads makes the text
      unreadable. */
  lemma PrefixUnreadable(s: string, n: nat, k: nat)
    requires |s| % 4 != 0 && n == |s| - |s| % 4
    requires k < n && !IsUrlSafe(s[..n][k])
    ensures !ShortReadable(s)
  {
    assert s[k] == s[..n][k];
  }

  /** With the whole quads all symbols, the text is readable exactly when
      its leftover is. */
  lemma ShortReadableSplit(s: string, n: nat)
    requires |s| % 4 != 0 && n == |s| - |s| % 4
    requires forall i :: 0 <= i < n ==> IsUrlSafe(s[..n][i])
    ensures ShortReadable(s) <==> LeftoverReadable(s[n..])
  {
    forall i | 0 <= i < n ensures IsUrlSafe(s[i]) {
      assert s[i] == s[..n][i];
    }
    if LeftoverReadable(s[n..]) {
      forall i | n <= i < |s| ensures IsUrlSafe(s[i]) || (i == |s| - 1 && |s| % 4 == 3 && s[i] == PAD) {
        assert s[i] == s[n..][i - n];
      }
    }
    if ShortReadable(s) {
      forall i | 0 <= i < |s| - n ensures IsUrlSafe(s[n..][i]) || (i == 2 && s[n..][i] == PAD) {
        assert s[n..][i] == s[i + n];
      }
    }
  }

  /** The leftover's error: an invalid symbol at an unreadable character
      exactly when the leftover is not readable, else by its length. */
  lemma LeftoverKind(t: string, offset: nat)
    requires 1 <= |t| <= 3
    ensures var e := LeftoverError(t, offset);
      && (e.InvalidByte? <==> !LeftoverReadable(t))
      && (e.InvalidByte? ==>
            (offset <= e.offset < offset + |t| && t[e.offset - offset] == e.symbol
             && !IsUrlSafe(e.symbol) && !(e.offset - offset == 2 && e.symbol == PAD)))
      && (e == InvalidLength(offset + 1) <==> LeftoverReadable(t) && |t| == 1)
      && (e == InvalidPadding <==> LeftoverReadable(t) && |t| >= 2)
  {
  }

  /** An error from `Values` names a character outside the alphabet, at its
      position in the whole input. */
  lemma {:induction false} ValuesErrorAt(s: string, offset: nat)
    ensures var r := Values(s, offset);
      r.Err? ==>
        (r.error.InvalidByte? && offset <= r.error.offset < offset + |s|
         && s[r.error.offset - offset] == r.error.symbol && !IsUrlSafe(r.error.symbol))
    decreases |s|
  {
    if s != [] {
      ValuesErrorAt(s[1..], offset + 1);
    }
  }

  /** The values of a run of symbols, or the first character outside the
      alphabet, with its position in the whole input. */
  function Values(s: string, offset: nat): (r: Result<seq<nat>, DecodeError>)
    ensures r.Ok? ==> |r.value| == |s| && AllSextets(r.value)
    decreases |s|
  {
    if s == [] then Ok([])
    else
      match Value(s[0])
      case None => Err(InvalidByte(offset, s[0]))
      case Some(v) =>
        match Values(s[1..], offset + 1)
        case Err(e) => Err(e)
        case Ok(vs) => Ok([v] + vs)
  }

  /** Values are found exactly when every character is in the alphabet, and
      then each is the value of its character. */
  lemma {:induction false} ValuesRead(s: string, offset: nat)
    ensures var r := Values(s, offset);
      && (r.Ok? <==> forall i :: 0 <= i < |s| ==> IsUrlSafe(s[i]))
      && (r.Ok? ==> forall i :: 0 <= i < |s| ==> Value(s[i]) == Some(r.value[i]))
    decreases |s|
  {
    if s != [] {
      var rest := Values(s[1..], offset + 1);
      ValuesRead(s[1..], offset + 1);
      var r := Values(s, offset);
      if Value(s[0]).Some? && rest.Ok? {
        assert r.value == [Value(s[0]).value] + rest.value;
        forall i | 0 <= i < |s| ensures IsUrlSafe(s[i]) && Value(s[i]) == Some(r.value[i]) {
          if i > 0 {
            assert s[i] == s[1..][i - 1];
          }
        }
      } else if Value(s[0]).Some? {
        var j :| 0 <= j < |s[1..]| && !IsUrlSafe(s[1..][j]);
        assert s[j + 1] == s[1..][j];
      }
    }
  }

  /** Values back to bytes, four values to three bytes; a short last group of
      two or three values gives one or two bytes, and its last value must
      not carry bits beyond them. An error is the position of that value. A
      single value left over cannot occur after `Decode`'s length check. */
  function Unpack(vs: seq<nat>, offset: nat): (r: Result<seq<byte>, nat>)
    requires AllSextets(vs)
    ensures r.Err? ==> offset <= r.error < offset + |vs|
    decreases |vs|
  {
    if |vs| == 0 then Ok([])
    else if |vs| == 1 then Err(offset)
    else if |vs| == 2 then
      if vs[1] % 16 != 0 then Err(offset + 1) else Ok([vs[0] * 4 + vs[1] / 16])
    else if |vs| == 3 then
      if vs[2] % 4 != 0 then Err(offset + 2)
      else Ok([vs[0] * 4 + vs[1] / 16, vs[1] % 16 * 16 + vs[2] / 4])
    else
      match Unpack(vs[4..], offset + 4)
      case Err(k) => Err(k)
      case Ok(tail) =>
        Ok([vs[0] * 4 + vs[1] / 16, vs[1] % 16 * 16 + vs[2] / 4, vs[2] % 4 * 64 + vs[3]] + tail)
  }

  /** Division and remainder by 4, 16 or 64 recover the two parts of `q * k + r`. */
  lemma Split(q: int, r: int, k: int)
    requires k == 4 || k == 16 || k == 64
    requires 0 <= r < k
    ensures (q * k + r) / k == q && (q * k + r) % k == r
  {
    if k == 4 {
      assert q * k + r == q * 4 + r;
    } else if k == 16 {
      assert q * k + r == q * 16 + r;
    } else {
      assert q * k + r == q * 64 + r;
    }
  }

  /** The bit arithmetic of one group, bytes to values and back: three
      bytes, two bytes (the last value has its two low bits clear) and one
      byte (the last value has its four low bits clear). */
  lemma BytesToValues(b0: byte, b1: byte, b2: byte)
    ensures var v0, v1, v2, v3 := b0 / 4, b0 % 4 * 16 + b1 / 16, b1 % 16 * 4 + b2 / 64, b2 % 64;
      && v0 * 4 + v1 / 16 == b0 && v1 % 16 * 16 + v2 / 4 == b1 && v2 % 4 * 64 + v3 == b2
    ensures var v1, v2 := b0 % 4 * 16 + b1 / 16, b1 % 16 * 4;
      && b0 / 4 * 4 + v1 / 16 == b0 && v1 % 16 * 16 + v2 / 4 == b1 && v2 % 4 == 0
    ensures var v1 := b0 % 4 * 16;
      b0 / 4 * 4 + v1 / 16 == b0 && v1 % 16 == 0
  {
    Split(b0 % 4, b1 / 16, 16);
    Split(b1 % 16, b2 / 64, 4);
    Split(b0 % 4, 0, 16);
    Split(b1 % 16, 0, 4);
  }

  /** The same arithmetic from values to bytes, for a whole group of four
      values and for short groups of three and two. */
  lemma ValuesToBytes(v0: nat, v1: nat, v2: nat, v3: nat)
    requires v0 < 64 && v1 < 64 && v2 < 64 && v3 < 64
    ensures var b0, b1, b2 := v0 * 4 + v1 / 16, v1 % 16 * 16 + v2 / 4, v2 % 4 * 64 + v3;
      && b0 < 256 && b1 < 256 && b2 < 256
      && b0 / 4 == v0 && b0 % 4 * 16 + b1 / 16 == v1 && b1 % 16 * 4 + b2 / 64 == v2 && b2 % 64 == v3
  {
    Split(v0, v1 / 16, 4);
    Split(v1 % 16, v2 / 4, 16);
    Split(v2 % 4, v3, 64);
    Split(v1 / 16, v1 % 16, 16);
    Split(v2 / 4, v2 % 4, 4);
  }

  lemma ValuesToTwoBytes(v0: nat, v1: nat, v2: nat)
    requires v0 < 64 && v1 < 64 && v2 < 64 && v2 % 4 == 0
    ensures var b0, b1 := v0 * 4 + v1 / 16, v1 % 16 * 16 + v2 / 4;
      && b0 < 256 && b1 < 256
      && b0 / 4 == v0 && b0 % 4 * 16 + b1 / 16 == v1 && b1 % 16 * 4 == v2
  {
    Split(v0, v1 / 16, 4);
    Split(v1 % 16, v2 / 4, 16);
    Split(v1 / 16, v1 % 16, 16);
    Split(v2 / 4, 0, 4);
  }

  lemma ValuesToOneByte(v0: nat, v1: nat)
    requires v0 < 64 && v1 < 64 && v1 % 16 == 0
    ensures var b0 := v0 * 4 + v1 / 16;
      b0 < 256 && b0 / 4 == v0 && b0 % 4 * 16 == v1
  {
    Split(v0, v1 / 16, 4);
    Split(v1 / 16, 0, 16);
  }

  /** Unpacking the values of some bytes gives the bytes back. */
  lemma {:induction false} UnpackSextets(b: seq<byte>, offset: nat)
    ensures Unpack(Sextets(b), offset) == Ok(b)
    decreases |b|
  {
    if |b| == 1 || |b| == 2 {
      UnpackSextetsShort(b, offset);
    } else if |b| >= 3 {
      UnpackSextets(b[3..], offset + 4);
      UnpackSextetsGroup(b, offset);
    }
  }

  /** One or two bytes: one short group. */
  lemma UnpackSextetsShort(b: seq<byte>, offset: nat)
    requires 1 <= |b| <= 2
    ensures Unpack(Sextets(b), offset) == Ok(b)
  {
    if |b| == 1 {
      BytesToValues(b[0], 0, 0);
      assert b == [b[0]];
    } else {
      BytesToValues(b[0], b[1], 0);
      assert |Sextets(b)| == 3;
      assert b == [b[0], b[1]];
    }
  }

  /** A whole group of three bytes in front of bytes that unpack. */
  lemma UnpackSextetsGroup(b: seq<byte>, offset: nat)
    requires |b| >= 3
    requires Unpack(Sextets(b[3..]), offset + 4) == Ok(b[3..])
    ensures Unpack(Sextets(b), offset) == Ok(b)
  {
    var vs := Sextets(b);
    BytesToValues(b[0], b[1], b[2]);
    assert vs[4..] == Sextets(b[3..]);
    assert b == [b[0], b[1], b[2]] + b[3..];
  }

  /** Unpacking is canonical: values that unpack are exactly the values of
      the bytes they unpack to. */
  lemma {:induction false} SextetsUnpack(vs: seq<nat>, offset: nat, b: seq<byte>)
    requires AllSextets(vs)
    requires Unpack(vs, offset) == Ok(b)
    ensures Sextets(b) == vs
    decreases |vs|
  {
    if |vs| == 2 {
      var b0 := vs[0] * 4 + vs[1] / 16;
      assert b == [b0];
      ValuesToOneByte(vs[0], vs[1]);
    } else if |vs| == 3 {
      var b0, b1 := vs[0] * 4 + vs[1] / 16, vs[1] % 16 * 16 + vs[2] / 4;
      assert b == [b0, b1];
      ValuesToTwoBytes(vs[0], vs[1], vs[2]);
    } else if |vs| >= 4 {
      var tail := Unpack(vs[4..], offset + 4).value;
      SextetsUnpack(vs[4..], offset + 4, tail);
      SextetsUnpackGroup(vs, offset, b, tail);
    }
  }

  lemma SextetsUnpackGroup(vs: seq<nat>, offset: nat, b: seq<byte>, tail: seq<byte>)
    requires AllSextets(vs) && |vs| >= 4
    requires Unpack(vs, offset) == Ok(b)
    requires Unpack(vs[4..], offset + 4) == Ok(tail)
    requires Sextets(tail) == vs[4..]
    ensures Sextets(b) == vs
  {
    var b0, b1, b2 := vs[0] * 4 + vs[1] / 16, vs[1] % 16 * 16 + vs[2] / 4, vs[2] % 4 * 64 + vs[3];
    assert b == [b0, b1, b2] + tail;
    ValuesToBytes(vs[0], vs[1], vs[2], vs[3]);
    assert b[3..] == tail;
    assert vs == [vs[0], vs[1], vs[2], vs[3]] + vs[4..];
  }

  /** A run of symbols has the values they were made from. */
  lemma ValuesOfSymbols(vs: seq<nat>, offset: nat)
    requires AllSextets(vs)
    ensures Values(Symbols(vs), offset) == Ok(vs)
  {
    var s := Symbols(vs);
    ValuesRead(s, offset);
    forall i | 0 <= i < |vs| ensures IsUrlSafe(s[i]) && Value(s[i]) == Some(vs[i]) {
      ValueOfSymbol(vs[i]);
    }
    var r := Values(s, offset);
    assert r.Ok?;
    assert r.value == vs;
  }

  /** A run whose values were read is the run of symbols of those values. */
  lemma SymbolsOfValues(s: string, offset: nat, vs: seq<nat>)
    requires Values(s, offset) == Ok(vs)
    ensures Symbols(vs) == s
  {
    ValuesRead(s, offset);
  }

  /** No symbol is a padding character, so the decoder strips exactly the
      padding the encoder wrote. */
  lemma TrailingPadsOfEncode(b: seq<byte>)
    ensures TrailingPads(Encode(b)) == PadCount(|b|)
  {
    var vs := Sextets(b);
    var s := Encode(b);
    var p := PadCount(|b|);
    if p < 2 && |s| > p {
      assert s[|s| - 1 - p] == Symbol(vs[|vs| - 1]);
    }
  }

  /** Decoding undoes encoding. */
  lemma DecodeEncode(b: seq<byte>)
    ensures Decode(Encode(b)) == Ok(b)
  {
    var vs := Sextets(b);
    var s := Encode(b);
    var p := PadCount(|b|);
    assert |s| % 4 == 0 by {
      SextetsLength(b);
    }
    assert TrailingPads(s) == p by {
      TrailingPadsOfEncode(b);
    }
    var body := s[..|s| - p];
    assert body == Symbols(vs);
    assert Values(body, 0) == Ok(vs) by {
      ValuesOfSymbols(vs, 0);
    }
    assert Unpack(vs, 0) == Ok(b) by {
      UnpackSextets(b, 0);
    }
  }

  /** Decoding is canonical: a string that decodes is exactly the encoding of
      what it decodes to, so every other string is rejected. */
  lemma EncodeDecode(s: string, b: seq<byte>)
    requires Decode(s) == Ok(b)
    ensures Encode(b) == s
  {
    var p := TrailingPads(s);
    var body := s[..|s| - p];
    TrailingPadsArePads(s);
    assert |s| % 4 == 0;
    var vs := Values(body, 0).value;
    assert Unpack(vs, 0) == Ok(b);
    assert Symbols(vs) == body by {
      SymbolsOfValues(body, 0, vs);
    }
    assert Sextets(b) == vs by {
      SextetsUnpack(vs, 0, b);
    }
    assert p == PadCount(|b|) by {
      SextetsLength(b);
      PadsFromLength(|b|, |vs|, p);
    }
    assert s == body + Pads(p);
  }

  /** The padding that completes the values of `n` bytes to a multiple of
      four is `PadCount(n)`. */
  lemma PadsFromLength(n: nat, m: nat, p: nat)
    requires m % 4 == SextetRem(n) && (m + p) % 4 == 0 && p <= 2
    ensures p == PadCount(n)
  {
  }

  /** The shape of an encoding: four characters for every started group of
      three bytes, all in the alphabet except for the padding at the end. */
  lemma EncodeShape(b: seq<byte>)
    ensures var s := Encode(b);
      && |s| == 4 * ((|b| + 2) / 3)
      && PadCount(|b|) <= |s|
      && (forall i :: 0 <= i < |s| - PadCount(|b|) ==> IsUrlSafe(s[i]))
      && (forall i :: |s| - PadCount(|b|) <= i < |s| ==> s[i] == PAD)
  {
    SextetsLength(b);
  }

  /** Four values for every whole group of three bytes, and two or three
      for a short last group; with the padding, four characters for every
      started group. */
  lemma {:induction false} SextetsLength(b: seq<byte>)
    ensures |Sextets(b)| % 4 == SextetRem(|b|)
    ensures |Sextets(b)| + PadCount(|b|) == 4 * ((|b| + 2) / 3)
    decreases |b|
  {
    if |b| > 3 {
      var m := |Sextets(b[3..])|;
      assert |Sextets(b)| == m + 4;
      SextetsLength(b[3..]);
      GroupStep(|b|);
      assert (m + 4) % 4 == m % 4;
    } else {
      assert |Sextets(b)| == SextetRem(|b|) + (if |b| == 3 then 4 else 0);
    }
  }

  lemma GroupStep(n: nat)
    requires n > 3
    ensures SextetRem(n) == SextetRem(n - 3) && PadCount(n) == PadCount(n - 3)
    ensures (n + 2) / 3 == (n - 3 + 2) / 3 + 1
  {
  }
}

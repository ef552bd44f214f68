/** The few string operations of Rust's standard library the validators and
    error messages rely on: `char::is_whitespace`, `str::trim`, `str::len`
    (a length in UTF-8 bytes), ASCII lowercasing and decimal formatting. */
module Text {

  /** Rust's `char::is_whitespace`: the Unicode White_Space property. */
  predicate IsWhitespace(c: char) {
    ('\U{0009}' <= c <= '\U{000D}') || c == ' ' || c == '\U{0085}' || c == '\U{00A0}'
    || c == '\U{1680}' || ('\U{2000}' <= c <= '\U{200A}') || c == '\U{2028}' || c == '\U{2029}'
    || c == '\U{202F}' || c == '\U{205F}' || c == '\U{3000}'
  }

  predicate AllWhitespace(s: string) {
    forall c :: c in s ==> IsWhitespace(c)
  }

  /** `str::trim_start`: drop the leading whitespace. What is left is a
      suffix of the input; `TrimStartDrops` says that only whitespace went. */
  function TrimStart(s: string): (r: string)
    ensures |r| <= |s| && r == s[|s| - |r|..]
    ensures r != [] ==> !IsWhitespace(r[0])
  {
    if s != [] && IsWhitespace(s[0]) then TrimStart(s[1..]) else s
  }

  /** `str::trim_end`: drop the trailing whitespace. What is left is a
      prefix of the input; `TrimEndDrops` says that only whitespace went. */
  function TrimEnd(s: string): (r: string)
    ensures |r| <= |s| && r == s[..|r|]
    ensures r != [] ==> !IsWhitespace(r[|r| - 1])
  {
    if s != [] && IsWhitespace(s[|s| - 1]) then TrimEnd(s[..|s| - 1]) else s
  }

  /** What `trim_start` drops is whitespace. */
  lemma {:induction false} TrimStartDrops(s: string)
    ensures AllWhitespace(s[..|s| - |TrimStart(s)|])
    decreases |s|
  {
    if s != [] && IsWhitespace(s[0]) {
      TrimStartDrops(s[1..]);
      var k := |s| - |TrimStart(s)|;
      assert s[..k] == [s[0]] + s[1..][..k - 1];
    }
  }

  /** What `trim_end` drops is whitespace. */
  lemma {:induction false} TrimEndDrops(s: string)
    ensures AllWhitespace(s[|TrimEnd(s)|..])
    decreases |s|
  {
    if s != [] && IsWhitespace(s[|s| - 1]) {
      var n := |s| - 1;
      TrimEndDrops(s[..n]);
      var k := |TrimEnd(s)|;
      assert s[k..] == s[..n][k..] + [s[n]];
    }
  }

  /** `str::trim`: drop whitespace at both ends. What is left neither starts
      nor ends with whitespace; `TrimSlice` says where it sits in the input. */
  function Trim(s: string): (r: string)
    ensures |r| <= |s|
    ensures r != [] ==> !IsWhitespace(r[0]) && !IsWhitespace(r[|r| - 1])
  {
    var a := TrimStart(s);
    var b := TrimEnd(a);
    assert b != [] ==> a != [] && b[0] == a[0] && !IsWhitespace(a[0]);
    b
  }

  /** What `trim` keeps, `b`, reached through `a`, the input with its
      leading whitespace dropped: it is the slice of the input that starts
      after that whitespace and is followed by whitespace only. */
  lemma TrimSlice(s: string, a: string, b: string)
    requires a == TrimStart(s) && b == TrimEnd(a)
    ensures b == Trim(s)
    ensures var i := |s| - |a|;
      && i + |b| <= |s| && b == s[i..i + |b|]
      && AllWhitespace(s[..i]) && AllWhitespace(s[i + |b|..])
  {
    SliceOfSuffix(s, a, b);
    TrimStartDrops(s);
    TrimEndDrops(a);
  }

  /** A prefix of a suffix is a slice, and what follows it is the rest of the
      suffix. */
  lemma SliceOfSuffix<T>(s: seq<T>, a: seq<T>, b: seq<T>)
    requires |a| <= |s| && a == s[|s| - |a|..]
    requires |b| <= |a| && b == a[..|b|]
    ensures var i := |s| - |a|; s[i..i + |b|] == b && s[i + |b|..] == a[|b|..]
  {
  }

  /** Padding a string with whitespace on either side does not change what
      `trim` returns. */
  lemma TrimIgnoresPadding(pre: string, s: string, post: string)
    requires AllWhitespace(pre) && AllWhitespace(post)
    ensures Trim(pre + s + post) == Trim(s)
  {
    TrimStartPaddedBoth(pre, s, post);
    TrimStartOfPaddedEnd(s, post);
  }

  /** Leading whitespace before a padded string is dropped with the rest. */
  lemma TrimStartPaddedBoth(pre: string, s: string, post: string)
    requires AllWhitespace(pre)
    ensures TrimStart(pre + s + post) == TrimStart(s + post)
  {
    Associative(pre, s, post);
    TrimStartPadded(pre, s + post);
  }

  lemma Associative<T>(a: seq<T>, b: seq<T>, c: seq<T>)
    ensures a + b + c == a + (b + c)
  {
  }

  lemma {:induction false} TrimStartPadded(pre: string, s: string)
    requires AllWhitespace(pre)
    ensures TrimStart(pre + s) == TrimStart(s)
    decreases |pre|
  {
    if pre != [] {
      assert (pre + s)[1..] == pre[1..] + s;
      TrimStartPadded(pre[1..], s);
    } else {
      assert pre + s == s;
    }
  }

  lemma {:induction false} TrimEndPadded(s: string, post: string)
    requires AllWhitespace(post)
    ensures TrimEnd(s + post) == TrimEnd(s)
    decreases |post|
  {
    if post != [] {
      var n := |post| - 1;
      assert (s + post)[..|s + post| - 1] == s + post[..n];
      TrimEndPadded(s, post[..n]);
    } else {
      assert s + post == s;
    }
  }

  /** TrimStart(s + post) is TrimStart(s) + post when s is not all whitespace,
      and is the tail of post otherwise; either way trimming the end agrees. */
  lemma {:induction false} TrimStartOfPaddedEnd(s: string, post: string)
    requires AllWhitespace(post)
    ensures TrimEnd(TrimStart(s + post)) == TrimEnd(TrimStart(s))
    decreases |s|
  {
    if s == [] {
      assert s + post == post;
      TrimStartAllWhitespace(post);
    } else if IsWhitespace(s[0]) {
      assert (s + post)[1..] == s[1..] + post;
      TrimStartOfPaddedEnd(s[1..], post);
    } else {
      TrimEndPadded(s, post);
    }
  }

  lemma {:induction false} TrimStartAllWhitespace(s: string)
    requires AllWhitespace(s)
    ensures TrimStart(s) == []
    decreases |s|
  {
    if s != [] {
      TrimStartAllWhitespace(s[1..]);
    }
  }

  /** A string that neither starts nor ends with whitespace has nothing to
      trim. */
  lemma NothingToTrim(s: string)
    requires s != [] ==> !IsWhitespace(s[0]) && !IsWhitespace(s[|s| - 1])
    ensures Trim(s) == s
  {
    assert TrimStart(s) == s;
    assert TrimEnd(s) == s;
  }

  /** Trimming is idempotent: a trimmed string has nothing left to trim. */
  lemma TrimTrimmed(s: string)
    ensures Trim(Trim(s)) == Trim(s)
  {
    NothingToTrim(Trim(s));
  }

  /** `str::len`: the number of bytes of the UTF-8 encoding. */
  function Utf8Len(s: string): (n: nat)
    ensures |s| <= n <= 4 * |s|
  {
    if s == [] then 0 else Utf8Width(s[0]) + Utf8Len(s[1..])
  }

  function Utf8Width(c: char): nat {
    if c as int < 0x80 then 1
    else if c as int < 0x800 then 2
    else if c as int < 0x10000 then 3
    else 4
  }

  /** ASCII lowercasing; every other character is kept. */
  function AsciiLower(s: string): (r: string)
    ensures |r| == |s|
    ensures forall i :: 0 <= i < |s| ==> r[i] == LowerChar(s[i])
  {
    if s == [] then [] else [LowerChar(s[0])] + AsciiLower(s[1..])
  }

  function LowerChar(c: char): char {
    if 'A' <= c <= 'Z' then (c as int + 32) as char else c
  }

  /** Decimal text of an integer, as Rust's `Display` for integers writes it. */
  function IntText(n: int): (r: string)
    ensures r != []
    decreases if n < 0 then 1 - n else n
  {
    if n < 0 then "-" + IntText(-n)
    else if n < 10 then [Digit(n)]
    else IntText(n / 10) + [Digit(n % 10)]
  }

  function Digit(d: nat): char
    requires d < 10
  {
    ('0' as int + d) as char
  }
}

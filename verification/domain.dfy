/** The domain records (src/domain/story.rs, src/domain/task.rs) and the task
    status enum with its parser and printer (src/domain/status.rs). */
module Domain {
  import opened Base
  import opened Errors
  import opened Text

  datatype Story = Story(id: i32, name: string)

  datatype Task = Task(id: i32, storyId: i32, name: string, status: Status)

  /** `#[default]` marks `Incomplete`. */
  datatype Status = Complete | Incomplete

  const DEFAULT_STATUS: Status := Incomplete

  const COMPLETE: string := "complete"
  const INCOMPLETE: string := "incomplete"

  /** `FromStr::from_str`: trim, lowercase, then match one of the two names. */
  function ParseStatus(s: string): (r: Res<Status>)
    ensures r == Ok(Complete) <==> AsciiLower(Trim(s)) == COMPLETE
    ensures r == Ok(Incomplete) <==> AsciiLower(Trim(s)) == INCOMPLETE
    ensures r.Err? ==> r.error == InvalidArgsError("invalid enum variant")
  {
    var key := AsciiLower(Trim(s));
    if key == COMPLETE then Ok(Complete)
    else if key == INCOMPLETE then Ok(Incomplete)
    else Err(InvalidArgsError("invalid enum variant"))
  }

  /** `Display::fmt`. */
  function StatusText(s: Status): (r: string)
    ensures r == COMPLETE <==> s == Complete
    ensures r == INCOMPLETE <==> s == Incomplete
  {
    match s
    case Complete => COMPLETE
    case Incomplete => INCOMPLETE
  }

  /** Printing then parsing gives the status back, and the two names differ. */
  lemma StatusRoundTrip(s: Status)
    ensures ParseStatus(StatusText(s)) == Ok(s)
    ensures StatusText(Complete) != StatusText(Incomplete)
  {
    match s {
      case Complete => LowercaseWord(COMPLETE);
      case Incomplete => LowercaseWord(INCOMPLETE);
    }
    assert |COMPLETE| == 8 && |INCOMPLETE| == 10;
  }

  /** A word of lowercase ASCII letters is its own key: trimming and
      lowercasing leave it as it is. */
  lemma LowercaseWord(text: string)
    requires text != [] && forall i :: 0 <= i < |text| ==> 'a' <= text[i] <= 'z'
    ensures AsciiLower(Trim(text)) == text
  {
    NothingToTrim(text);
    LowerOfLowercase(text);
  }

  lemma LowerOfLowercase(s: string)
    requires forall i :: 0 <= i < |s| ==> 'a' <= s[i] <= 'z'
    ensures AsciiLower(s) == s
  {
  }

  /** Surrounding whitespace and ASCII letter case do not change the parse. */
  lemma ParseIgnoresPaddingAndCase(pre: string, s: string, post: string, t: string)
    requires AllWhitespace(pre) && AllWhitespace(post)
    requires AsciiLower(t) == AsciiLower(s)
    ensures ParseStatus(pre + s + post) == ParseStatus(t)
  {
    TrimIgnoresPadding(pre, s, post);
    TrimCommutesWithLower(s);
    TrimCommutesWithLower(t);
  }

  /** Whitespace is never an ASCII letter, so trimming and lowercasing commute. */
  lemma {:induction false} TrimCommutesWithLower(s: string)
    ensures AsciiLower(Trim(s)) == Trim(AsciiLower(s))
  {
    TrimStartCommutesWithLower(s);
    TrimEndCommutesWithLower(TrimStart(s));
  }

  lemma LowerKeepsWhitespace(c: char)
    ensures IsWhitespace(LowerChar(c)) <==> IsWhitespace(c)
  {
  }

  lemma {:induction false} TrimStartCommutesWithLower(s: string)
    ensures AsciiLower(TrimStart(s)) == TrimStart(AsciiLower(s))
    decreases |s|
  {
    if s != [] {
      LowerKeepsWhitespace(s[0]);
      assert AsciiLower(s)[1..] == AsciiLower(s[1..]);
      if IsWhitespace(s[0]) {
        TrimStartCommutesWithLower(s[1..]);
      }
    }
  }

  lemma {:induction false} TrimEndCommutesWithLower(s: string)
    ensures AsciiLower(TrimEnd(s)) == TrimEnd(AsciiLower(s))
    decreases |s|
  {
    if s != [] {
      var n := |s| - 1;
      LowerKeepsWhitespace(s[n]);
      assert AsciiLower(s)[..n] == AsciiLower(s[..n]);
      if IsWhitespace(s[n]) {
        TrimEndCommutesWithLower(s[..n]);
      }
    }
  }
}

/** The request bodies of src/api/dto.rs and their validators: names are
    trimmed and must be 1 to 100 bytes long, a task's story id must be
    positive, and a status must name one of the two variants. Every failing
    check adds its message, in the order the checks run. */
module Dto {
  import opened Base
  import opened Errors
  import opened Text
  import opened Domain

  /** `MAX_NAME_LEN`, in bytes. */
  const MAX_NAME_LEN: nat := 100

  const NAME_LENGTH: string := "name: invalid length"
  const STORY_ID_POSITIVE: string := "story_id: must be > 0"
  const NOTHING_TO_PATCH: string := "name and/or status must be provided"
  const STATUS_VARIANT: string := "status: invalid enum variant"

  /** A trimmed name is neither empty nor longer than `MAX_NAME_LEN` bytes. */
  predicate ValidName(trimmed: string) {
    1 <= Utf8Len(trimmed) <= MAX_NAME_LEN
  }

  /** The check the validators write out: a name is rejected when it is
      empty or too long. */
  lemma LengthCheck(trimmed: string)
    ensures (trimmed == [] || Utf8Len(trimmed) > MAX_NAME_LEN) <==> !ValidName(trimmed)
  {
  }

  /** The body for creating or updating a story. */
  datatype StoryBody = StoryBody(name: string)

  /** The POST body for creating a task. */
  datatype CreateTaskBody = CreateTaskBody(name: string, storyId: i32)

  /** The PATCH body for updating a task: either field may be missing. */
  datatype PatchTaskBody = PatchTaskBody(name: Option<string>, status: Option<string>)

  /** `StoryBody::validate`: the trimmed name, or the length message. */
  function ValidateStory(body: StoryBody): (r: Res<string>)
    ensures r.Ok? <==> ValidName(Trim(body.name))
    ensures r.Ok? ==> r.value == Trim(body.name)
    ensures r.Err? ==> r.error == InvalidArgsError(NAME_LENGTH)
  {
    var name := Trim(body.name);
    if name == [] || Utf8Len(name) > MAX_NAME_LEN then Err(InvalidArgsError(NAME_LENGTH))
    else Ok(name)
  }

  /** A validated name is accepted again as it is, and whitespace around a
      name changes nothing. */
  lemma ValidateStoryStable(name: string, pre: string, post: string)
    requires AllWhitespace(pre) && AllWhitespace(post)
    ensures ValidateStory(StoryBody(pre + name + post)) == ValidateStory(StoryBody(name))
    ensures ValidateStory(StoryBody(name)).Ok? ==>
      ValidateStory(StoryBody(ValidateStory(StoryBody(name)).value)) == ValidateStory(StoryBody(name))
  {
    TrimIgnoresPadding(pre, name, post);
    TrimTrimmed(name);
  }

  /** The messages that two checks run in order collect: the message of
      each check that fails. */
  function Collected(fail1: bool, m1: string, fail2: bool, m2: string): seq<string> {
    (if fail1 then [m1] else []) + (if fail2 then [m2] else [])
  }

  /** Two different messages: none when both checks pass, each exactly when
      its check fails, and the first check's first. */
  lemma CollectedExact(fail1: bool, m1: string, fail2: bool, m2: string)
    requires m1 != m2
    ensures var m := Collected(fail1, m1, fail2, m2);
      && (m == [] <==> !fail1 && !fail2)
      && (m1 in m <==> fail1) && (m2 in m <==> fail2)
      && |m| <= 2 && (|m| == 2 ==> m == [m1, m2])
  {
  }

  /** Pushing the first check's message when it fails, then the second's,
      collects the two. */
  lemma Collecting(fail1: bool, m1: string, fail2: bool, m2: string, first: seq<string>, messages: seq<string>)
    requires first == (if fail1 then [m1] else [])
    requires messages == first + (if fail2 then [m2] else [])
    ensures messages == Collected(fail1, m1, fail2, m2)
  {
  }

  /** The messages differ from one another. */
  lemma MessagesDistinct()
    ensures STORY_ID_POSITIVE != NAME_LENGTH && NAME_LENGTH != STATUS_VARIANT
  {
    assert |STORY_ID_POSITIVE| == 21 && |NAME_LENGTH| == 20 && |STATUS_VARIANT| == 28;
  }

  /** The messages of the failing checks of a create body, in order. */
  function CreateTaskMessages(body: CreateTaskBody): seq<string> {
    Collected(body.storyId <= 0, STORY_ID_POSITIVE, !ValidName(Trim(body.name)), NAME_LENGTH)
  }

  /** `CreateTaskBody::validate`: run both checks, collecting the message of
      each one that fails; succeed only when none did. */
  method ValidateCreateTask(body: CreateTaskBody) returns (r: Res<(i32, string)>)
    ensures r.Ok? <==> CreateTaskMessages(body) == []
    ensures r.Ok? ==> r.value == (body.storyId, Trim(body.name))
    ensures r.Err? ==> r.error == InvalidArgs(CreateTaskMessages(body))
  {
    var storyId := body.storyId;
    var messages := CheckStoryId(storyId, []);
    ghost var first := messages;
    var name := Trim(body.name);
    messages := CheckName(name, messages);
    Collecting(storyId <= 0, STORY_ID_POSITIVE, !ValidName(name), NAME_LENGTH, first, messages);
    if messages == [] {
      return Ok((storyId, name));
    }
    return Err(InvalidArgs(messages));
  }

  /** A create body is accepted exactly when its story id is positive and
      its trimmed name has a valid length; otherwise each failing check has
      its message, once, and the story id's comes first. */
  lemma CreateTaskMessagesExact(body: CreateTaskBody)
    ensures CreateTaskMessages(body) == [] <==> body.storyId > 0 && ValidName(Trim(body.name))
    ensures STORY_ID_POSITIVE in CreateTaskMessages(body) <==> body.storyId <= 0
    ensures NAME_LENGTH in CreateTaskMessages(body) <==> !ValidName(Trim(body.name))
    ensures |CreateTaskMessages(body)| <= 2
    ensures |CreateTaskMessages(body)| == 2 ==> CreateTaskMessages(body) == [STORY_ID_POSITIVE, NAME_LENGTH]
  {
    var badName := !ValidName(Trim(body.name));
    assert CreateTaskMessages(body) == Collected(body.storyId <= 0, STORY_ID_POSITIVE, badName, NAME_LENGTH);
    MessagesDistinct();
    CollectedExact(body.storyId <= 0, STORY_ID_POSITIVE, badName, NAME_LENGTH);
  }

  /** A status text is accepted when, trimmed and lowercased, it is the name
      of a variant. */
  predicate StatusAccepted(status: string) {
    IsVariantName(AsciiLower(Trim(status)))
  }

  /** The text is the name of a variant. */
  predicate IsVariantName(s: string) {
    s == COMPLETE || s == INCOMPLETE
  }

  /** The status check agrees with `Status::from_str`. */
  lemma StatusAcceptedParses(status: string)
    ensures StatusAccepted(status) <==> ParseStatus(status).Ok?
  {
  }

  /** The messages of the failing checks of a patch body that has at least one
      field, in order. */
  function PatchTaskMessages(body: PatchTaskBody): seq<string> {
    Collected(body.name.Some? && !ValidName(Trim(body.name.value)), NAME_LENGTH,
              body.status.Some? && !StatusAccepted(body.status.value), STATUS_VARIANT)
  }

  /** `PatchTaskBody::validate`: a body with neither field fails at once;
      otherwise check the fields that are present, collecting the message of
      each failing check, and succeed only when none did. */
  method ValidatePatchTask(body: PatchTaskBody) returns (r: Res<()>)
    ensures body.name.None? && body.status.None? ==> r == Err(InvalidArgsError(NOTHING_TO_PATCH))
    ensures body.name.Some? || body.status.Some? ==>
      (r.Ok? <==> PatchTaskMessages(body) == []) && (r.Err? ==> r.error == InvalidArgs(PatchTaskMessages(body)))
  {
    if body.name.None? && body.status.None? {
      return Err(InvalidArgsError(NOTHING_TO_PATCH));
    }
    var messages: seq<string> := [];
    if body.name.Some? {
      messages := CheckName(Trim(body.name.value), messages);
    }
    ghost var first := messages;
    if body.status.Some? {
      messages := CheckStatus(body.status.value, messages);
    }
    Collecting(body.name.Some? && !ValidName(Trim(body.name.value)), NAME_LENGTH,
               body.status.Some? && !StatusAccepted(body.status.value), STATUS_VARIANT, first, messages);
    if messages != [] {
      return Err(InvalidArgs(messages));
    }
    return Ok(());
  }

  /** The story id check: add its message unless the id is positive. */
  method CheckStoryId(storyId: i32, messages: seq<string>) returns (r: seq<string>)
    ensures r == messages + (if storyId <= 0 then [STORY_ID_POSITIVE] else [])
  {
    r := messages;
    if storyId <= 0 {
      r := r + [STORY_ID_POSITIVE];
    }
  }

  /** The length check of a trimmed name: add its message when the name is
      empty or too long. */
  method CheckName(name: string, messages: seq<string>) returns (r: seq<string>)
    ensures r == messages + (if ValidName(name) then [] else [NAME_LENGTH])
  {
    r := messages;
    LengthCheck(name);
    if name == [] || Utf8Len(name) > MAX_NAME_LEN {
      r := r + [NAME_LENGTH];
    }
  }

  /** The status check: add its message unless the trimmed, lowercased text
      names a variant. */
  method CheckStatus(status: string, messages: seq<string>) returns (r: seq<string>)
    ensures r == messages + (if StatusAccepted(status) then [] else [STATUS_VARIANT])
  {
    r := messages;
    var s := AsciiLower(Trim(status));
    if !IsVariantName(s) {
      r := r + [STATUS_VARIANT];
    }
  }

  /** A patch body with a field is accepted exactly when every field present
      passes its check, and a status passes exactly when it parses; each
      failing check has its message, once, the name's first. */
  lemma PatchTaskMessagesExact(body: PatchTaskBody)
    ensures PatchTaskMessages(body) == [] <==>
      (body.name.Some? ==> ValidName(Trim(body.name.value))) && (body.status.Some? ==> ParseStatus(body.status.value).Ok?)
    ensures NAME_LENGTH in PatchTaskMessages(body) <==> body.name.Some? && !ValidName(Trim(body.name.value))
    ensures STATUS_VARIANT in PatchTaskMessages(body) <==> body.status.Some? && !ParseStatus(body.status.value).Ok?
    ensures |PatchTaskMessages(body)| == 2 ==> PatchTaskMessages(body) == [NAME_LENGTH, STATUS_VARIANT]
  {
    if body.status.Some? {
      StatusAcceptedParses(body.status.value);
    }
    MessagesDistinct();
    CollectedExact(body.name.Some? && !ValidName(Trim(body.name.value)), NAME_LENGTH,
                   body.status.Some? && !StatusAccepted(body.status.value), STATUS_VARIANT);
  }

  /** `PatchTaskBody::unwrap` as written: the body's name as sent, untrimmed,
      or the task's name; the parsed status, or the task's status. The source
      converts the status with `Status::from`; it is read here as the
      `from_str` parse, which `validate` has checked. */
  function UnwrapAsWritten(body: PatchTaskBody, task: Task): (r: (string, Status))
    requires body.status.Some? ==> ParseStatus(body.status.value).Ok?
    ensures body.name.None? ==> r.0 == task.name
    ensures body.name.Some? ==> r.0 == body.name.value
    ensures body.status.None? ==> r.1 == task.status
    ensures body.status.Some? ==> Ok(r.1) == ParseStatus(body.status.value)
  {
    var name := if body.name.Some? then body.name.value else task.name;
    var status := if body.status.Some? then ParseStatus(body.status.value).value else task.status;
    (name, status)
  }

  /** A body that passes `validate` can still store a name that is padded
      and, padding counted, longer than `MAX_NAME_LEN` bytes. */
  lemma UnwrapKeepsPadding(task: Task)
    ensures var body := PatchTaskBody(Some(" " + ['x'] + " "), None);
      PatchTaskMessages(body) == [] && UnwrapAsWritten(body, task).0 != Trim(body.name.value)
  {
    var name := " " + ['x'] + " ";
    PaddedLetter(name);
    NameOnlyAccepted(name);
    assert UnwrapAsWritten(PatchTaskBody(Some(name), None), task).0 == name;
    assert |name| == 3;
  }

  /** A body with only a name passes `validate` when the trimmed name is
      valid. */
  lemma NameOnlyAccepted(name: string)
    requires ValidName(Trim(name))
    ensures PatchTaskMessages(PatchTaskBody(Some(name), None)) == []
  {
  }

  /** One letter between two spaces trims to the letter, a valid name. */
  lemma PaddedLetter(name: string)
    requires name == " " + ['x'] + " "
    ensures Trim(name) == ['x'] && ValidName(Trim(name))
  {
    SpaceIsWhitespace();
    LetterIsTrimmed();
    LetterIsName();
    TrimIgnoresPadding(" ", ['x'], " ");
  }

  lemma SpaceIsWhitespace()
    ensures AllWhitespace(" ")
  {
    forall c | c in " " ensures IsWhitespace(c) {
      assert c == ' ';
    }
  }

  /** A single letter has nothing to trim... */
  lemma LetterIsTrimmed()
    ensures Trim(['x']) == ['x']
  {
    NothingToTrim(['x']);
  }

  /** ...and is a valid name, one byte long. */
  lemma LetterIsName()
    ensures ValidName(['x'])
  {
    assert Utf8Len(['x']) == Utf8Width('x') + Utf8Len([]);
  }

  /** `unwrap` with the name trimmed, as `validate` checked it. */
  function Unwrap(body: PatchTaskBody, task: Task): (r: (string, Status))
    requires body.status.Some? ==> ParseStatus(body.status.value).Ok?
    ensures body.name.None? ==> r.0 == task.name
    ensures body.name.Some? ==> r.0 == Trim(body.name.value)
    ensures body.status.None? ==> r.1 == task.status
    ensures body.status.Some? ==> Ok(r.1) == ParseStatus(body.status.value)
  {
    var name := if body.name.Some? then Trim(body.name.value) else task.name;
    var status := if body.status.Some? then ParseStatus(body.status.value).value else task.status;
    (name, status)
  }

  /** After a successful `validate`, a new name is stored trimmed and within
      the length bound, and a new status is the one the text names. */
  lemma UnwrapValidated(body: PatchTaskBody, task: Task)
    requires body.name.Some? || body.status.Some?
    requires PatchTaskMessages(body) == []
    ensures body.status.Some? ==> ParseStatus(body.status.value).Ok?
    ensures body.name.Some? ==> var name := Unwrap(body, task).0;
      ValidName(name) && Trim(name) == name
    ensures body.status.Some? ==> StatusText(Unwrap(body, task).1) == AsciiLower(Trim(body.status.value))
  {
    PatchTaskMessagesExact(body);
    if body.name.Some? {
      TrimTrimmed(body.name.value);
    }
  }
}

# bb8-todos stories core, in Dafny

This project models the story side of the bb8-todos web service and proves
things about the model. The service is a REST API over PostgreSQL for
stories and their tasks. The modelled parts are:

- **Page tokens** (`Paging`, with `Base64` and `Borsh`). A token is the
  Borsh bytes of `{id: i32, ts: u128}` in padded URL-safe base64. It has no
  signature and no expiry. `encode` gives no token for an id `<= 0`.
  `decode` reads the id back. No token means cursor 1. Text that is not
  base64 is an `Internal` error. Base64 of anything but twenty bytes panics
  at `unwrap`.
- **The SQL of stories and tasks** (`SqlStories`, `SqlTasks`). Each query
  is a function on a table held as a sequence of rows in id order:
  - the keyset window query `SELECT`: one `prev` row, up to 100 `current`
    rows and one `next` row around a cursor that must exist;
  - the tasks page query: ten tasks of one story from a cursor on, which
    need not exist;
  - the point queries and the deletes.
- **The story repository** (`RepoStory`):
  - `select_stories`, written as a loop over a row stream that may fail;
  - `select_story`, `insert_story` and `update_story`;
  - the two-statement delete transaction.
- **The connection's statement cache** (`Connection`, `Statements`). These
  are classes whose fields change in place:
  - `PgConn::prepare_cache` caches by SQL text;
  - `cache` prepares the four hot-path statements and caches them only if
    every prepare succeeds.
- **Request validation** (`Dto`). Names are trimmed and must be 1 to 100
  UTF-8 bytes long. Story ids must be positive. Status text must name a
  variant. Every failing check adds its message, in order.
- **The status enum** (`Domain`) and **the error type** (`Errors`).
- **The story HTTP handlers** (`ApiStory`). Repository calls are function
  parameters. So "the repository is not called" is stated by comparing two
  arbitrary repositories. Handler results are also proved over concrete
  tables.

Properties proved include:

- `decode(encode(id)) == id` for every positive id and every clock reading.
- Tokens can be forged, since any token text decodes to its id.
- A decoded id always comes from a token text.
- The exact conditions under which decoding errs or panics.
- The page at the story with index `i` holds stories `i .. i+100`. Its
  back link leads to story `max(0, i-100)`. Its forward link leads to story
  `i+100`.
- Following the forward link and then the back link returns to the start.
- Task pages continue without gaps or repeats, and the page after a short
  page is empty.
- The delete answers 204 exactly when the transaction committed and
  something existed.
- An update succeeds exactly when the name is valid and the story exists.
- After `cache` succeeds, every key holds the statement just prepared
  from its own SQL text. After it fails, nothing is cached.
- The validators' message lists hold exactly the failing checks, in order.

## Model

| member | source | states |
|---|---|---|
| Errors.InternalError | src/error/mod.rs:19-21 | builds `Internal` carrying the message |
| Errors.NotFoundError | src/error/mod.rs:23-25 | builds `NotFound` carrying the message |
| Errors.InvalidArgsError | src/error/mod.rs:27-31 | builds `InvalidArgs` with exactly the one message |
| Errors.DisplayDistinguishes | src/error/mod.rs:8-15 | two errors display the same text iff they are equal or both `InvalidArgs`: the kind and the message of `Internal`/`NotFound` can be read back from the text |
| Errors.Display | src/error/mod.rs:8-15 | `InvalidArgs` shows "invalid arguments" without its messages; the text of `Internal` and `NotFound` ends with their message |
| Errors.FromForeign | src/error/mod.rs:34-50 | base64, PKCS#8, signature and Postgres errors (the last by `From` in src/db/pool/mod.rs:46-50) become `Internal` with the foreign error's text |
| Text.Trim | src/api/dto.rs:28 | the result is no longer than the input and neither starts nor ends with whitespace |
| Text.TrimSlice | src/api/dto.rs:28 | the result of `trim` is the slice of the input after its leading whitespace; only whitespace precedes and follows it |
| Text.TrimStartDrops | src/api/dto.rs:28 | what `trim_start` drops is whitespace |
| Text.TrimEndDrops | src/api/dto.rs:28 | what `trim_end` drops is whitespace |
| Text.TrimIgnoresPadding | src/api/dto.rs:28 | whitespace added on either side does not change the trimmed result |
| Text.NothingToTrim | src/api/dto.rs:28 | a string with no whitespace at either end is its own trim |
| Text.TrimTrimmed | src/api/dto.rs:28 | trimming is idempotent |
| Text.Utf8Len | src/api/dto.rs:29 | the byte length lies between the number of characters and four times that number |
| Text.AsciiLower | src/domain/status.rs:21 | same length; each character is lowercased on its own |
| Domain.ParseStatus | src/domain/status.rs:20-26 | gives `Complete` iff the trimmed, lowercased text is "complete" and `Incomplete` iff it is "incomplete"; otherwise `InvalidArgs("invalid enum variant")` |
| Domain.StatusText | src/domain/status.rs:29-35 | the text is "complete" exactly for `Complete` and "incomplete" exactly for `Incomplete` |
| Domain.StatusRoundTrip | src/domain/status.rs:29-35 | parsing the displayed name gives the status back; the two names differ |
| Domain.ParseIgnoresPaddingAndCase | src/domain/status.rs:21 | surrounding whitespace and ASCII case do not change the parse |
| Domain.TrimCommutesWithLower | src/domain/status.rs:21 | trimming and lowercasing commute |
| Base64.Value | src/api/paging.rs:66 | a character has a value iff it is in the URL-safe alphabet, and that value's symbol is the character |
| Base64.Encode | src/api/paging.rs:54 | four characters for every started group of three bytes |
| Base64.Decode | src/api/paging.rs:66 | only a text whose length is a multiple of four decodes; a length error goes with one leftover character and a padding error with two or three |
| Base64.ShortErrorKind | src/api/paging.rs:66 | no text whose length is not a multiple of four decodes; it is an invalid-symbol error, naming an unreadable character, iff some character is outside the alphabet (a third leftover `=` excepted); otherwise one leftover symbol is a length error and two or three leftover characters a padding error |
| Base64.LeftoverKind | src/api/paging.rs:66 | the same for the one to three leftover characters alone |
| Base64.Values | src/api/paging.rs:66 | on success there is one value per character, each below 64 |
| Base64.ValuesRead | src/api/paging.rs:66 | values are found iff every character is in the alphabet, and each is the value of its character |
| Base64.DecodeEncode | src/api/paging.rs:54-66 | decoding an encoding gives the bytes back |
| Base64.EncodeDecode | src/api/paging.rs:54-66 | decoding succeeds only on the canonical encoding of its result |
| Base64.EncodeShape | src/api/paging.rs:54 | the length is `4*ceil(n/3)`: alphabet symbols followed by `PadCount(n)` padding characters |
| Borsh.FromLeBytes | src/api/paging.rs:36-40 | reading back k little-endian bytes gives the number |
| Borsh.LeBytesFrom | src/api/paging.rs:36-40 | writing back what was read gives the bytes |
| Borsh.FromTwosTwos | src/api/paging.rs:38 | two's complement of an `i32` reads back to the `i32` |
| Borsh.I32Bytes | src/api/paging.rs:38 | an `i32` is written as four bytes |
| Borsh.U128Bytes | src/api/paging.rs:39 | a `u128` is written as sixteen bytes |
| Borsh.I32RoundTrip | src/api/paging.rs:38 | `i32` and four bytes are in bijection |
| Borsh.U128RoundTrip | src/api/paging.rs:39 | `u128` and sixteen bytes are in bijection |
| Paging.TokenBytes | src/api/paging.rs:52 | a token serializes to twenty bytes |
| Paging.TokenFromBytes | src/api/paging.rs:68 | deserializing succeeds iff there are exactly twenty bytes |
| Paging.TokenBytesRoundTrip | src/api/paging.rs:36-40 | tokens and twenty-byte strings are in bijection |
| Paging.Encode | src/api/paging.rs:44-57 | no token iff the id is `<= 0` |
| Paging.TokenShape | src/api/paging.rs:44-57 | a token is 27 URL-safe symbols and one `=` |
| Paging.Decode | src/api/paging.rs:60-73 | no token means `Ok(1)`; every error it returns is `Internal` |
| Paging.DecodeEncode | src/api/paging.rs:44-73 | every issued token decodes to its page id, whatever the clock read |
| Paging.DecodeAnyToken | src/api/paging.rs:60-73 | the text of any token, with any id and any timestamp, decodes to that id (no signature, no expiry) |
| Paging.DecodedIdsComeFromTokens | src/api/paging.rs:60-73 | a text that decodes to an id is the text of a token with that id |
| Paging.DecodeFailures | src/api/paging.rs:66-68 | panics iff the text is base64 of anything but twenty bytes; returns an error iff the text is not base64 |
| Paging.DecodeExamples | src/api/paging.rs:66-68 | the empty string panics; "abc" is a padding error, "ab!" a symbol error and "abcde" a length error, each as `Internal` |
| SqlStories.FetchFinds | src/db/sql/stories.rs:1 | at most one row; a row iff the id exists, and then it is that story |
| SqlStories.Fetch | src/db/sql/stories.rs:1 | no more rows than the table, each with the requested id |
| SqlStories.DeleteRows | src/db/sql/stories.rs:3 | the count is the number of rows removed |
| SqlStories.DeleteRowsRemoves | src/db/sql/stories.rs:3 | removes exactly the story with the id (count 1 or 0) and keeps the table ordered |
| SqlStories.Window | src/db/sql/stories.rs:6-28 | rows are returned iff the cursor id exists |
| SqlStories.WindowAt | src/db/sql/stories.rs:6-28 | at the story with index `i`: the prev row, the current rows, then the next row |
| SqlStories.WindowParts | src/db/sql/stories.rs:19-28 | selecting one label gives exactly that part |
| SqlStories.WindowAscending | src/db/sql/stories.rs:6-28 | the window's ids strictly increase |
| SqlStories.AscendingParts | src/db/sql/stories.rs:11-18 | prev, current and next together are in id order |
| SqlStories.NextRow | src/db/sql/stories.rs:25-28 | a `next` row exists only if 100 more stories follow, and it is the story 100 places on |
| SqlStories.PrevRow | src/db/sql/stories.rs:11-14 | a `prev` row exists only past the first story, and it is the story 100 places back, or the first one |
| SqlStories.PrevRowOf | src/db/sql/stories.rs:11-22 | from index `j >= 100` the `prev` row is the story 100 places back |
| SqlStories.NextRowOf | src/db/sql/stories.rs:25-28 | the `next` rows are the next part |
| SqlStories.NextThenPrev | src/db/sql/stories.rs:6-28 | the window at the `next` row has the starting story as its `prev` row |
| SqlStories.PrevThenNext | src/db/sql/stories.rs:6-28 | the window at the `prev` row links forward to the starting story iff the start is at index >= 100 |
| SqlStories.NextOfPrev | src/db/sql/stories.rs:6-28 | the next part of the previous window is the starting story iff the start is at index >= 100 |
| SqlTasks.Select | src/db/sql/tasks.rs:7-9 | at most ten rows, each a task of the story with id at or above the cursor |
| SqlTasks.Matching | src/db/sql/tasks.rs:7-9 | every match is a task of the story with id at or above the cursor |
| SqlTasks.MatchingMembers | src/db/sql/tasks.rs:7-9 | the matches are exactly the tasks of the story with id at or above the cursor |
| SqlTasks.SelectAscending | src/db/sql/tasks.rs:8 | the page is in id order |
| SqlTasks.SelectSmallest | src/db/sql/tasks.rs:8 | a qualifying task left out means the page is full of smaller ids |
| SqlTasks.CursorNeedNotExist | src/db/sql/tasks.rs:8 | a cursor that is the id of no task of the story gives the same matches and the same page as the id after it |
| SqlTasks.MatchingFrom | src/db/sql/tasks.rs:7-9 | matching from the id after the k-th match gives exactly the matches after it |
| SqlTasks.PageContinues | src/db/sql/tasks.rs:7-9 | the matches are the page followed by the matches from last id + 1; after a short page there are none |
| SqlTasks.DeleteByStory | src/db/sql/tasks.rs:3 | the count is the number of rows removed |
| SqlTasks.DeleteByStoryRemoves | src/db/sql/tasks.rs:3 | removes exactly the story's tasks and reports how many |
| SqlTasks.SelectAfterDelete | src/db/sql/tasks.rs:3 | afterwards the story has no tasks; other stories' pages are unchanged |
| RepoStory.DrainOk | src/repo/story.rs:42-43 | the stream drains iff every row is `Ok`, and then it yields the rows in order |
| RepoStory.DrainFirstError | src/repo/story.rs:43 | the first failing row's error is the result |
| RepoStory.DrainKeepsError | src/repo/story.rs:43 | rows after an error are never looked at |
| RepoStory.SelectStories | src/repo/story.rs:29-58 | the loop returns the query error, the first row error, or the partition of all the rows |
| RepoStory.PartitionStep | src/repo/story.rs:44-54 | one row updates only the field of its label: prev id, next id, or a story appended |
| RepoStory.Partition | src/repo/story.rs:44-54 | a prev or next id that is not 0 is the id of a row with that label; no more stories than rows |
| RepoStory.LastIdFrom | src/repo/story.rs:48-51 | a last id that is not 0 comes from a row with the label |
| RepoStory.LastIdLastWins | src/repo/story.rs:48-51 | the last row with a label gives that label's id |
| RepoStory.OtherLabelSkipped | src/repo/story.rs:52-54 | a row with an unknown label changes nothing |
| RepoStory.PartitionOfParts | src/repo/story.rs:38-57 | the three labelled parts give back their ids (0 when absent) and the current stories |
| RepoStory.PartitionOfWindow | src/repo/story.rs:29-58 | at index `i`: prev id as per the window (0 at the first story), next id of the story 100 on (0 when none), and stories `i..i+100` |
| RepoStory.PartitionOfMissingCursor | src/repo/story.rs:38-57 | a cursor that is not an id gives `(0, 0, [])` |
| RepoStory.SelectStory | src/repo/story.rs:11-26 | the first row, its error, the query error, or `NotFound("story not found: <id>")` |
| RepoStory.SelectStoryOfFetch | src/repo/story.rs:11-26 | over a table: found iff the id exists, and then it is that story; otherwise `NotFound` |
| RepoStory.InsertStory | src/repo/story.rs:61-76 | the returned id with the given name; `Internal("failed to insert story: <name>")` when no row comes back; fails iff the query or the row fails or no row comes back |
| RepoStory.UpdateStory | src/repo/story.rs:106-118 | succeeds iff some row changed, with the story `(id, name)`; no row gives `Internal("unable to update story")` |
| RepoStory.UpdateStoryOfTable | src/repo/story.rs:106-118 | over a table: succeeds iff the id exists |
| RepoStory.DeleteStoryTx | src/repo/story.rs:79-103 | a failing step leaves the database as it was and returns that error; a commit removes the tasks and the story and returns the sum of the counts |
| RepoStory.DeleteStoryEffect | src/repo/story.rs:86-102 | after commit: the count is the story's tasks plus one if it existed; only its rows are gone |
| Connection.Client.Prepare | src/db/pool/connection.rs:27 | one round trip is recorded; it returns the statement numbered by its place, or the error of that round trip when it fails |
| Connection.PgConn.constructor | src/db/pool/connection.rs:15-20 | the cache starts empty |
| Connection.PrepareCache | src/db/pool/connection.rs:23-32 | a hit returns the cached statement with no round trip; a miss prepares once; a failure leaves the cache unchanged; on success the text maps to the statement; other entries are kept; statements stay cached under their own text |
| Connection.PrepareCacheTwice | src/db/pool/connection.rs:23-32 | after a success the second request returns the same statement with at most one prepare; after a failure nothing is cached, so the second request prepares again and succeeds iff that round trip does |
| Statements.KeyIndex | src/db/sql/statements.rs:16-21 | every key is in the queries, with its own text |
| Statements.QueriesDistinct | src/db/sql/statements.rs:16-21 | the queries list each key once, and no two keys share a text |
| Statements.Prepare | src/db/sql/statements.rs:36-44 | the statement grouped with its key, or the driver's error |
| Statements.PrepareAll | src/db/sql/statements.rs:24-25 | succeeds iff none of its round trips fails, otherwise gives the error of one that failed; on success: one statement per query, with the same keys in order, each the statement of its own round trip and text |
| Statements.InsertAll | src/db/sql/statements.rs:28-30 | the cache gains the inserted pairs |
| Statements.InsertedAll | src/db/sql/statements.rs:28-30 | with distinct keys, every key maps to its own statement |
| Statements.Cache | src/db/sql/statements.rs:14-33 | succeeds iff none of the four round trips fails; on failure the cache is unchanged and the error is a failed round trip's; on success all four texts are prepared and each key maps to the statement just prepared from its own text |
| Dto.LengthCheck | src/api/dto.rs:29 | the written check "empty or longer than 100 bytes" is the negation of `ValidName` |
| Dto.ValidateStory | src/api/dto.rs:27-33 | `Ok` iff the trimmed name is 1 to 100 bytes long, with the trimmed name; otherwise the single length message |
| Dto.ValidateStoryStable | src/api/dto.rs:27-33 | padding does not change the result, and a validated name validates to itself |
| Dto.ValidateCreateTask | src/api/dto.rs:45-65 | `Ok((story_id, trimmed name))` iff no check fails; otherwise `InvalidArgs` with the failing checks' messages |
| Dto.CheckStoryId | src/api/dto.rs:50-53 | the story id's message is added iff the id is not positive |
| Dto.CheckName | src/api/dto.rs:54-57 | the name's message is added iff the trimmed name is not 1 to 100 bytes |
| Dto.CreateTaskMessagesExact | src/api/dto.rs:50-57 | no message iff id > 0 and the name is valid; each message iff its check fails; the story id's message comes first |
| Dto.StatusAcceptedParses | src/api/dto.rs:91-96 | the validator's status check accepts exactly what `from_str` parses |
| Dto.ValidatePatchTask | src/api/dto.rs:77-102 | with neither field, the single "provided" message; otherwise `Ok` iff no check fails, else the messages |
| Dto.CheckStatus | src/api/dto.rs:91-96 | the status message is added iff the trimmed, lowercased text is neither variant name |
| Dto.PatchTaskMessagesExact | src/api/dto.rs:84-96 | accepted iff each present field passes; each message iff its check fails; the name's message comes first |
| Dto.UnwrapAsWritten | src/api/dto.rs:105-112 | the body's name untrimmed, or the task's; the parsed status, or the task's |
| Dto.UnwrapKeepsPadding | src/api/dto.rs:106 | the body `" x "` passes validation, yet unwrap returns the untrimmed name |
| Dto.Unwrap | src/api/dto.rs:105-112 | the trimmed name, or the task's; the parsed status, or the task's |
| Dto.UnwrapValidated | src/api/dto.rs:77-112 | after validation: a new name is trimmed and 1 to 100 bytes; a new status is the one the text names |
| ApiStory.EncodeLinks | src/api/story.rs:68 | a link is absent iff the boundary id is `<= 0`; otherwise it decodes to that id |
| ApiStory.GetStories | src/api/story.rs:56-71 | panics iff decoding panics; passes decode and repository errors through; otherwise the repository's stories, with links to its prev and next ids |
| ApiStory.GetStoriesDecodeFirst | src/api/story.rs:64-67 | a token that does not decode fails without the repository being called |
| ApiStory.GetStoriesPage | src/api/story.rs:56-71 | at the story with index `i`: stories `i..i+100`; a back link iff `i > 0`, to story `max(0,i-100)`; a forward link iff 100 more follow, to story `i+100` |
| ApiStory.NextThenPrevPage | src/api/story.rs:56-71 | following the forward link, then the back link, returns to the starting story |
| ApiStory.FirstPageNeedsStoryOne | src/api/story.rs:63-68 | with no token and no story with id 1, the page is empty and has no links |
| ApiStory.GetTasks | src/api/story.rs:36-53 | panics iff decoding panics; passes errors through; never a back link; a forward link iff the page is non-empty and the last id + 1 (wrapping) is positive, decoding to it |
| ApiStory.TaskLinkBound | src/api/story.rs:49 | the last id + 1 is positive iff `0 <= last < i32::MAX`, and then it does not wrap |
| ApiStory.GetTasksDecodeFirst | src/api/story.rs:45-48 | a token that does not decode fails without the repository being called |
| ApiStory.GetTasksContinues | src/api/story.rs:45-50 | following the forward link loses and repeats no task, and after a short page the next one is empty |
| ApiStory.DeleteStory | src/api/story.rs:86-94 | 204 iff the delete returned a count > 0, otherwise 404 |
| ApiStory.DeleteStoryAnswer | src/api/story.rs:86-94 | over the transaction: 204 iff it committed and the story or some of its tasks existed |
| ApiStory.CreateStory | src/api/story.rs:74-83 | an invalid body is the validation error; otherwise the insert of the trimmed name, answered 201 |
| ApiStory.CreateStoryValidatesFirst | src/api/story.rs:80-82 | an invalid body is refused before the insert; created iff the trimmed name is valid, with that name |
| ApiStory.UpdateStory | src/api/story.rs:97-113 | validation error, else the lookup's error, else the update of the trimmed name |
| ApiStory.UpdateStoryOrder | src/api/story.rs:105-110 | an invalid body calls neither repository function; a failed lookup does not call the update |
| ApiStory.UpdateStoryOfTable | src/api/story.rs:97-113 | over a table: succeeds iff the name is valid and the story exists, giving the story with the trimmed name; a missing story is `NotFound` |

## Left out

- The pool (bb8 `Pool`, its manager and health checks), configuration, the
  request signer and `main`. They are outside this core. Their errors appear
  only as `PgError`/`Internal` values.
- src/pool/, src/domain.rs, src/repo/task.rs and src/api/task.rs are not
  part of this model. They belong to the tasks side or to an older layout.
  The tasks queries used by the story handlers are modelled in `SqlTasks`.
- `get_story` (src/api/story.rs:29-33) is not modelled separately. It
  returns `select_story`'s result unchanged, and that is
  `RepoStory.SelectStory`.
- Async execution, tracing and logging are left out. The clock `now()` is
  the parameter `now` of `Paging.Encode`. `ApiStory.GetStories` takes the
  two readings of its two `encode` calls as the pair `clock`.
- Connection.Client.Prepare: the server's answers are given by the place
  of each round trip in the order of round trips (`failures`). A rejected
  text and a transient failure look the same. Which round trips fail is not
  derived from the text or the server state.
- Base64.Decode: the `base64` crate version is not pinned in the modelled
  files. The error kinds follow the 0.22 engine (`InvalidLength` carries
  the length). The set of accepted texts is the same in 0.21.
- Statements.PrepareAll: the `try_join_all` prepares run concurrently in
  the source. The model issues them in order and stops at the first
  refusal. So it does not state which of several refusals is reported, nor
  how many prepares reach the server after a failure.
- Statements.Cache: the source caches under a `BTreeMap<String, _>` while
  `cache` inserts `StatementKey`s. The model gives the cache a generic key
  type so that both uses can be stated.
- RepoStory.DeleteStoryTx: the sum `num_tasks + num_stories` is a `u64`
  and is taken as unbounded. It cannot overflow for a table that fits in
  memory.
- RepoStory.PartitionOfWindow: the rows of the `UNION ALL` are taken in
  the written order (prev, current, next). SQL does not promise this order,
  but `select_stories` does not depend on it, since each label has its own
  field.
- Text.AsciiLower: `to_lowercase` is Unicode lowercasing. The model lowers
  ASCII letters only. This is enough to decide whether a text is one of the
  two lowercase ASCII names, but not for other text.
- Base64.DecodeErrorText: error texts are short fixed phrases. The offset,
  symbol and length that the crate prints are left out.
- Dto.UnwrapAsWritten: `Status::from(String)` is not defined by the crate
  (only `FromStr` is). The conversion is read as the `from_str` parse. The
  function requires that a present status parses, which `validate`
  guarantees.
- ApiStory.GetTasks: `t.id + 1` is taken as a release build computes it
  (wrapping). A debug build would panic at `i32::MAX` instead.

## Findings

| source | as written | input that shows it | evidently intended | confidence | as-written member | corrected member |
|---|---|---|---|---|---|---|
| src/api/dto.rs:106 | `unwrap` stores the name from the body as sent, although `validate` checked its trimmed form | a PATCH body `{"name": " x "}` passes `validate` and stores `" x "`; 100 non-space bytes with padding would store more than 100 bytes | store the trimmed name that was validated | not executed | Dto.UnwrapKeepsPadding | Dto.UnwrapValidated |

/** The story handlers of src/api/story.rs: each one decodes or validates
    its input, makes its repository calls in order, and assembles the
    answer. A repository call is a function parameter, so a handler's
    result can be compared across repositories: a result that is the same
    for every repository is one the handler reached without calling it. */
module ApiStory {
  import opened Base
  import opened Errors
  import opened Text
  import opened Domain
  import opened Paging
  import opened Dto
  import opened SqlStories
  import RepoStory
  import SqlTasks

  /** The HTTP status codes the handlers answer with. */
  const CREATED: nat := 201
  const NO_CONTENT: nat := 204
  const NOT_FOUND: nat := 404

  /** A page link names the id it leads to: absent exactly for a boundary id
      that is not positive (the repository's `0` for "none"), and otherwise a
      token that decodes to the id. */
  predicate Links(link: Option<string>, id: i32) {
    (link.None? <==> id <= 0) && (link.Some? ==> Decode(link) == Returned(Ok(id)))
  }

  /** `encode` makes the link of a boundary id, whatever the clock reads. */
  lemma EncodeLinks(id: i32, now: u128)
    ensures Links(Encode(id, now), id)
  {
    if id > 0 {
      DecodeEncode(id, now);
    }
  }

  /** `get_stories`: decode the token (none means cursor 1), ask the
      repository for the window at that cursor, and make the page with links
      to the preceding and the following page. Each of the two `encode`
      calls reads the clock: `clock` holds the two readings, in call order. */
  function GetStories(token: Option<string>, selectStories: i32 -> Res<(i32, i32, seq<Story>)>, clock: (u128, u128))
    : (r: Outcome<Res<Page<Story>>>)
    ensures r == Panicked <==> Decode(token) == Panicked
    ensures Decode(token).Returned? && Decode(token).value.Err? ==> r == Returned(Err(Decode(token).value.error))
    ensures Decode(token).Returned? && Decode(token).value.Ok? ==>
      var answer := selectStories(Decode(token).value.value);
      && (answer.Err? ==> r == Returned(Err(answer.error)))
      && (answer.Ok? ==>
            && r.Returned? && r.value.Ok? && r.value.value.data == answer.value.2
            && Links(r.value.value.prevPage, answer.value.0) && Links(r.value.value.nextPage, answer.value.1))
  {
    match Decode(token)
    case Panicked => Panicked
    case Returned(Err(e)) => Returned(Err(e))
    case Returned(Ok(pageId)) =>
      match selectStories(pageId)
      case Err(e) => Returned(Err(e))
      case Ok((prev, next, data)) =>
        EncodeLinks(prev, clock.0);
        EncodeLinks(next, clock.1);
        Returned(Ok(Page(Encode(prev, clock.0), Encode(next, clock.1), data)))
  }

  /** A token that fails to decode fails the request whatever the
      repository would answer: the repository is never asked. */
  lemma GetStoriesDecodeFirst(token: Option<string>, s1: i32 -> Res<(i32, i32, seq<Story>)>, s2: i32 -> Res<(i32, i32, seq<Story>)>, clock: (u128, u128))
    requires !(Decode(token).Returned? && Decode(token).value.Ok?)
    ensures GetStories(token, s1, clock) == GetStories(token, s2, clock)
    ensures GetStories(token, s1, clock).Returned? ==> GetStories(token, s1, clock).value.Err?
  {
  }

  /** The repository over an ascending stories table: the window query at
      the cursor, partitioned by `select_stories`. */
  function StoriesOf(t: seq<Story>): i32 -> Res<(i32, i32, seq<Story>)> {
    (c: i32) => Ok(RepoStory.Partition(Window(t, c)))
  }

  /** Ids are serial: every story id is positive. */
  predicate PositiveIds(t: seq<Story>) {
    forall k :: 0 <= k < |t| ==> t[k].id > 0
  }

  /** The page at the story with index `i`: the 100 stories from it on; a
      link back exactly when it is not the first story, to the story 100
      places back or to the first one; a link on exactly when the table goes
      on for 100 more stories, to the story 100 places on. */
  lemma GetStoriesPage(t: seq<Story>, i: nat, token: Option<string>, clock: (u128, u128))
    requires Ascending(t) && PositiveIds(t) && i < |t|
    requires Decode(token) == Returned(Ok(t[i].id))
    ensures var r := GetStories(token, StoriesOf(t), clock);
      && r.Returned? && r.value.Ok?
      && r.value.value.data == t[i..Min(i + PAGE_SIZE, |t|)]
      && (r.value.value.prevPage.Some? <==> i > 0)
      && (i > 0 ==> Decode(r.value.value.prevPage) == Returned(Ok(t[Max(0, i - PAGE_SIZE)].id)))
      && (r.value.value.nextPage.Some? <==> i + PAGE_SIZE < |t|)
      && (i + PAGE_SIZE < |t| ==> Decode(r.value.value.nextPage) == Returned(Ok(t[i + PAGE_SIZE].id)))
  {
    RepoStory.PartitionOfWindow(t, i);
  }

  /** Following the link on and then the link back returns to the page one
      started from, whatever the clock read each time. */
  lemma NextThenPrevPage(t: seq<Story>, i: nat, token: Option<string>, clock1: (u128, u128), clock2: (u128, u128))
    requires Ascending(t) && PositiveIds(t) && i + PAGE_SIZE < |t|
    requires Decode(token) == Returned(Ok(t[i].id))
    ensures var next := GetStories(token, StoriesOf(t), clock1).value.value.nextPage;
      var back := GetStories(next, StoriesOf(t), clock2).value.value.prevPage;
      Decode(back) == Returned(Ok(t[i].id))
  {
    GetStoriesPage(t, i, token, clock1);
    GetStoriesPage(t, i + PAGE_SIZE, GetStories(token, StoriesOf(t), clock1).value.value.nextPage, clock2);
  }

  /** Without a token the list starts at cursor 1, so it is empty, with no
      links, unless a story has id 1. */
  lemma FirstPageNeedsStoryOne(t: seq<Story>, clock: (u128, u128))
    requires Ascending(t)
    requires !HasId(t, 1)
    ensures GetStories(None, StoriesOf(t), clock) == Returned(Ok(Page(None, None, [])))
  {
    RepoStory.PartitionOfMissingCursor(t, 1);
  }

  /** `get_tasks`: decode the token (none means cursor 1), ask the
      repository for the story's tasks from the cursor on, and link on from
      the last task's id + 1. There is never a link back. */
  function GetTasks(token: Option<string>, storyId: i32, selectTasks: (i32, i32) -> Res<seq<Task>>, now: u128)
    : (r: Outcome<Res<Page<Task>>>)
    ensures r == Panicked <==> Decode(token) == Panicked
    ensures Decode(token).Returned? && Decode(token).value.Err? ==> r == Returned(Err(Decode(token).value.error))
    ensures Decode(token).Returned? && Decode(token).value.Ok? ==>
      var answer := selectTasks(storyId, Decode(token).value.value);
      && (answer.Err? ==> r == Returned(Err(answer.error)))
      && (answer.Ok? ==>
            && r.Returned? && r.value.Ok? && r.value.value.data == answer.value && r.value.value.prevPage.None?
            && (answer.value == [] ==> r.value.value.nextPage.None?)
            && (answer.value != [] ==> Links(r.value.value.nextPage, WrappingAdd(answer.value[|answer.value| - 1].id, 1))))
  {
    match Decode(token)
    case Panicked => Panicked
    case Returned(Err(e)) => Returned(Err(e))
    case Returned(Ok(pageId)) =>
      match selectTasks(storyId, pageId)
      case Err(e) => Returned(Err(e))
      case Ok(data) =>
        if data == [] then Returned(Ok(Page(None, None, data)))
        else
          var next := WrappingAdd(data[|data| - 1].id, 1);
          EncodeLinks(next, now);
          Returned(Ok(Page(None, Encode(next, now), data)))
  }

  /** The link on from a page of tasks is there exactly when the last id is
      neither negative nor `i32::MAX` (where `+ 1` wraps to `i32::MIN`), and
      then leads to the id after the last one. */
  lemma TaskLinkBound(last: i32)
    ensures WrappingAdd(last, 1) > 0 <==> 0 <= last < I32_MAX
    ensures 0 <= last < I32_MAX ==> WrappingAdd(last, 1) == last + 1
  {
  }

  /** A token that fails to decode fails the request before the repository
      is asked. */
  lemma GetTasksDecodeFirst(token: Option<string>, storyId: i32, s1: (i32, i32) -> Res<seq<Task>>, s2: (i32, i32) -> Res<seq<Task>>, now: u128)
    requires !(Decode(token).Returned? && Decode(token).value.Ok?)
    ensures GetTasks(token, storyId, s1, now) == GetTasks(token, storyId, s2, now)
  {
  }

  /** The repository over a tasks table: the `SELECT` page query. */
  function TasksOf(t: seq<Task>): (i32, i32) -> Res<seq<Task>> {
    (storyId: i32, cursor: i32) => Ok(SqlTasks.Select(t, storyId, cursor))
  }

  /** Paging through a story's tasks loses and repeats nothing: when a page
      links on, the tasks of the story from the cursor on are the page
      followed by the tasks from the linked cursor on; and the page after a
      page that is not full is empty. */
  lemma GetTasksContinues(t: seq<Task>, storyId: i32, cursor: i32, token: Option<string>, now: u128)
    requires SqlTasks.Ascending(t)
    requires Decode(token) == Returned(Ok(cursor))
    ensures var page := GetTasks(token, storyId, TasksOf(t), now).value.value;
      page.nextPage.Some? ==>
        var c := Decode(page.nextPage).value.value;
        && SqlTasks.Matching(t, storyId, cursor) == page.data + SqlTasks.Matching(t, storyId, c)
        && (|page.data| < SqlTasks.LIMIT ==> SqlTasks.Matching(t, storyId, c) == [])
  {
    TasksPage(t, storyId, cursor, token, now);
    var page := GetTasks(token, storyId, TasksOf(t), now).value.value;
    PageOfLinkContinues(t, storyId, cursor, page.data, page.nextPage);
  }

  /** The same for the page's data and link, whoever produced them. */
  lemma PageOfLinkContinues(t: seq<Task>, storyId: i32, cursor: i32, data: seq<Task>, next: Option<string>)
    requires SqlTasks.Ascending(t)
    requires data == SqlTasks.Select(t, storyId, cursor) && NextLink(data, next)
    ensures next.Some? ==>
      var c := Decode(next).value.value;
      && SqlTasks.Matching(t, storyId, cursor) == data + SqlTasks.Matching(t, storyId, c)
      && (|data| < SqlTasks.LIMIT ==> SqlTasks.Matching(t, storyId, c) == [])
  {
    if next.Some? {
      NextLinkDecodes(data, next);
      SqlTasks.PageContinues(t, storyId, cursor);
    }
  }

  /** Over the tasks table, a page is the query's page, and a next-page
      token carries the id after the page's last task. */
  lemma TasksPage(t: seq<Task>, storyId: i32, cursor: i32, token: Option<string>, now: u128)
    requires Decode(token) == Returned(Ok(cursor))
    ensures var r := GetTasks(token, storyId, TasksOf(t), now);
      && r.Returned? && r.value.Ok?
      && r.value.value.data == SqlTasks.Select(t, storyId, cursor)
      && NextLink(r.value.value.data, r.value.value.nextPage)
  {
    var data := SqlTasks.Select(t, storyId, cursor);
    assert TasksOf(t)(storyId, cursor) == Ok(data);
  }

  /** The next-page link of a page of tasks: none after an empty page,
      otherwise one for the id after the last task. */
  predicate NextLink(data: seq<Task>, next: Option<string>) {
    (data == [] ==> next.None?) && (data != [] ==> Links(next, WrappingAdd(data[|data| - 1].id, 1)))
  }

  /** A next-page link decodes to the id after the page's last task. */
  lemma NextLinkDecodes(data: seq<Task>, next: Option<string>)
    requires NextLink(data, next) && next.Some?
    ensures data != [] && data[|data| - 1].id < I32_MAX
    ensures Decode(next) == Returned(Ok((data[|data| - 1].id + 1) as i32))
  {
    TaskLinkBound(data[|data| - 1].id);
  }

  /** `delete_story`: 204 when the repository deleted some rows, 404 when
      it deleted none or failed. */
  function DeleteStory(result: Res<nat>): (code: nat)
    ensures code == NO_CONTENT <==> result.Ok? && result.value > 0
    ensures code == NO_CONTENT || code == NOT_FOUND
  {
    if result.Ok? && result.value > 0 then NO_CONTENT else NOT_FOUND
  }

  /** Over the transaction of `delete_story`: 204 exactly when it committed
      and the story or some of its tasks existed. */
  lemma DeleteStoryAnswer(db: RepoStory.Db, id: i32, failure: Option<(RepoStory.Step, PgError)>)
    requires Ascending(db.stories)
    ensures DeleteStory(RepoStory.DeleteStoryTx(db, id, failure).0) == NO_CONTENT
      <==> failure.None? && (HasId(db.stories, id) || SqlTasks.CountOf(db.tasks, id) > 0)
  {
    RepoStory.DeleteStoryEffect(db, id);
  }

  /** `create_story`: validate the body, then insert the trimmed name;
      answer 201 with the new story. */
  function CreateStory(body: StoryBody, insertStory: string -> Res<Story>): (r: Res<(nat, Story)>)
    ensures ValidateStory(body).Err? ==> r == Err(ValidateStory(body).error)
    ensures ValidateStory(body).Ok? ==>
      var inserted := insertStory(Trim(body.name));
      && (inserted.Err? ==> r == Err(inserted.error))
      && (inserted.Ok? ==> r == Ok((CREATED, inserted.value)))
  {
    match ValidateStory(body)
    case Err(e) => Err(e)
    case Ok(name) =>
      match insertStory(name)
      case Err(e) => Err(e)
      case Ok(story) => Ok((CREATED, story))
  }

  /** An invalid body is refused before the insert, and the insert gets the
      name trimmed and within the length bound. */
  lemma CreateStoryValidatesFirst(body: StoryBody, i1: string -> Res<Story>, i2: string -> Res<Story>, newId: i32)
    ensures !ValidName(Trim(body.name)) ==> CreateStory(body, i1) == CreateStory(body, i2)
    ensures var insert := (name: string) => RepoStory.InsertStory(Ok([Ok(newId)]), name);
      (CreateStory(body, insert).Ok? <==> ValidName(Trim(body.name)))
      && (CreateStory(body, insert).Ok? ==> CreateStory(body, insert).value == (CREATED, Story(newId, Trim(body.name))))
  {
  }

  /** `update_story`: validate the body; then look the story up, and only
      when that succeeds run the update with the trimmed name. */
  function UpdateStory(id: i32, body: StoryBody, selectStory: i32 -> Res<Story>, updateStory: (i32, string) -> Res<Story>)
    : (r: Res<Story>)
    ensures ValidateStory(body).Err? ==> r == Err(ValidateStory(body).error)
    ensures ValidateStory(body).Ok? && selectStory(id).Err? ==> r == Err(selectStory(id).error)
    ensures ValidateStory(body).Ok? && selectStory(id).Ok? ==> r == updateStory(id, Trim(body.name))
  {
    match ValidateStory(body)
    case Err(e) => Err(e)
    case Ok(name) =>
      match selectStory(id)
      case Err(e) => Err(e)
      case Ok(_) => updateStory(id, name)
  }

  /** An invalid body reaches neither repository call, and a failed lookup
      does not reach the update. */
  lemma UpdateStoryOrder(id: i32, body: StoryBody, s1: i32 -> Res<Story>, s2: i32 -> Res<Story>,
                         u1: (i32, string) -> Res<Story>, u2: (i32, string) -> Res<Story>)
    ensures !ValidName(Trim(body.name)) ==> UpdateStory(id, body, s1, u1) == UpdateStory(id, body, s2, u2)
    ensures s1(id).Err? ==> UpdateStory(id, body, s1, u1) == UpdateStory(id, body, s1, u2)
  {
  }

  /** Over an ascending stories table: the update succeeds exactly when the
      name is valid and the story exists, and then gives the story with the
      trimmed name; a missing story is `NotFound`. */
  lemma UpdateStoryOfTable(t: seq<Story>, id: i32, body: StoryBody)
    requires Ascending(t)
    ensures var select := (c: i32) => RepoStory.SelectStory(Ok(RepoStory.AllOk(Fetch(t, c))), c);
      var update := (c: i32, name: string) => RepoStory.UpdateStory(Ok(|Fetch(t, c)|), c, name);
      var r := UpdateStory(id, body, select, update);
      && (r.Ok? <==> ValidName(Trim(body.name)) && HasId(t, id))
      && (r.Ok? ==> r.value == Story(id, Trim(body.name)))
      && (ValidName(Trim(body.name)) && !HasId(t, id) ==> r.Err? && r.error.NotFound?)
  {
    RepoStory.SelectStoryOfFetch(t, id);
    RepoStory.UpdateStoryOfTable(t, id, Trim(body.name));
  }
}

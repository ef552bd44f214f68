/** The story repository (src/repo/story.rs): what each query method makes of
    the rows or row counts the driver hands back. A query's answer is a
    `Res` of a stream, each item of the stream a row or the error reading
    it; connection checkout and statement preparation failing are the `Err`
    of the outer `Res`. */
module RepoStory {
  import opened Base
  import opened Errors
  import opened Text
  import opened Domain
  import opened SqlStories
  import SqlTasks

  /** The rows a query streams back, in order. */
  type Stream<T> = seq<Res<T>>

  /** Reading a stream to its end, stopping at its first error. */
  function Drain<T>(stream: Stream<T>): Res<seq<T>> {
    if stream == [] then Ok([])
    else
      var last := stream[|stream| - 1];
      match Drain(stream[..|stream| - 1])
      case Err(e) => Err(e)
      case Ok(rows) => if last.Err? then Err(last.error) else Ok(rows + [last.value])
  }

  /** A stream drains to its rows exactly when no item is an error. */
  lemma {:induction false} DrainOk<T>(stream: Stream<T>)
    ensures Drain(stream).Ok? <==> forall k :: 0 <= k < |stream| ==> stream[k].Ok?
    ensures Drain(stream).Ok? ==>
      (|Drain(stream).value| == |stream| && forall k :: 0 <= k < |stream| ==> Drain(stream).value[k] == stream[k].value)
    decreases |stream|
  {
    if stream != [] {
      var n := |stream| - 1;
      DrainOk(stream[..n]);
      assert forall k :: 0 <= k < n ==> stream[..n][k] == stream[k];
    }
  }

  /** An error stops the reading: the first error of the stream is the
      error of the whole. */
  lemma DrainFirstError<T>(stream: Stream<T>, j: nat)
    requires j < |stream| && stream[j].Err?
    requires forall k :: 0 <= k < j ==> stream[k].Ok?
    ensures Drain(stream) == Err(stream[j].error)
  {
    var prefix := stream[..j + 1];
    assert prefix[..j] == stream[..j];
    DrainOk(stream[..j]);
    DrainKeepsError(stream, j + 1);
  }

  /** Reading further does not undo an error already met. */
  lemma {:induction false} DrainKeepsError<T>(stream: Stream<T>, n: nat)
    requires n <= |stream| && Drain(stream[..n]).Err?
    ensures Drain(stream) == Drain(stream[..n])
    decreases |stream|
  {
    if n < |stream| {
      var m := |stream| - 1;
      assert stream[..m][..n] == stream[..n];
      DrainKeepsError(stream[..m], n);
    } else {
      assert stream[..n] == stream;
    }
  }

  /** The id of the last row with the label, or 0 when there is none. */
  function LastId(rows: seq<LabelledRow>, tag: string): i32 {
    if rows == [] then 0
    else if rows[|rows| - 1].tag == tag then rows[|rows| - 1].id
    else LastId(rows[..|rows| - 1], tag)
  }

  function AsStories(rows: seq<LabelledRow>): (r: seq<Story>)
    ensures |r| == |rows|
    ensures forall k :: 0 <= k < |rows| ==> r[k] == Story(rows[k].id, rows[k].name)
  {
    seq(|rows|, k requires 0 <= k < |rows| => Story(rows[k].id, rows[k].name))
  }

  /** What `select_stories` makes of the rows: the last `prev` id, the last
      `next` id, and the `current` rows as stories in stream order. */
  function Partition(rows: seq<LabelledRow>): (r: (i32, i32, seq<Story>))
    ensures r.0 == 0 || exists k :: 0 <= k < |rows| && rows[k].tag == PREV && rows[k].id == r.0
    ensures r.1 == 0 || exists k :: 0 <= k < |rows| && rows[k].tag == NEXT && rows[k].id == r.1
    ensures |r.2| <= |rows|
  {
    LastIdFrom(rows, PREV);
    LastIdFrom(rows, NEXT);
    WithLabelLength(rows, CURRENT);
    (LastId(rows, PREV), LastId(rows, NEXT), AsStories(WithLabel(rows, CURRENT)))
  }

  /** A last id that is not 0 is the id of a row with the label. */
  lemma {:induction false} LastIdFrom(rows: seq<LabelledRow>, tag: string)
    ensures LastId(rows, tag) == 0
      || exists k :: 0 <= k < |rows| && rows[k].tag == tag && rows[k].id == LastId(rows, tag)
    decreases |rows|
  {
    if rows != [] && rows[|rows| - 1].tag != tag {
      var init := rows[..|rows| - 1];
      LastIdFrom(init, tag);
      if LastId(init, tag) != 0 {
        var k :| 0 <= k < |init| && init[k].tag == tag && init[k].id == LastId(init, tag);
        assert rows[k] == init[k];
      }
    }
  }

  /** Selecting by label keeps at most every row. */
  lemma {:induction false} WithLabelLength(rows: seq<LabelledRow>, tag: string)
    ensures |WithLabel(rows, tag)| <= |rows|
    decreases |rows|
  {
    if rows != [] {
      WithLabelLength(rows[1..], tag);
    }
  }

  /** `select_stories`: one pass over the stream, keeping the last `prev`
      id, the last `next` id and every `current` row; an error reading a row
      ends the call with that error. */
  method SelectStories(query: Res<Stream<LabelledRow>>) returns (r: Res<(i32, i32, seq<Story>)>)
    ensures query.Err? ==> r == Err(query.error)
    ensures query.Ok? && Drain(query.value).Err? ==> r == Err(Drain(query.value).error)
    ensures query.Ok? && Drain(query.value).Ok? ==> r == Ok(Partition(Drain(query.value).value))
  {
    if query.Err? {
      return Err(query.error);
    }
    var stream := query.value;
    var prevPid: i32 := 0;
    var nextPid: i32 := 0;
    var stories: seq<Story> := [];
    ghost var rows: seq<LabelledRow> := [];
    var i := 0;
    while i < |stream|
      invariant 0 <= i <= |stream|
      invariant Drain(stream[..i]) == Ok(rows)
      invariant prevPid == LastId(rows, PREV) && nextPid == LastId(rows, NEXT)
      invariant stories == AsStories(WithLabel(rows, CURRENT))
    {
      DrainStep(stream, i, rows);
      if stream[i].Err? {
        return Err(stream[i].error);
      }
      var row := stream[i].value;
      LabelsDistinct();
      if row.tag == CURRENT {
        stories := stories + [Story(row.id, row.name)];
      } else if row.tag == PREV {
        prevPid := row.id;
      } else if row.tag == NEXT {
        nextPid := row.id;
      }
      PartsStep(rows, row);
      assert prevPid == LastId(rows + [row], PREV);
      assert nextPid == LastId(rows + [row], NEXT);
      assert stories == AsStories(WithLabel(rows + [row], CURRENT));
      rows := rows + [row];
      i := i + 1;
    }
    assert stream[..i] == stream;
    assert (prevPid, nextPid, stories) == Partition(rows);
    return Ok((prevPid, nextPid, stories));
  }

  /** Reading one more item of a stream: an error ends the whole stream
      with that error, a row is appended. */
  lemma DrainStep<T>(stream: Stream<T>, i: nat, rows: seq<T>)
    requires i < |stream| && Drain(stream[..i]) == Ok(rows)
    ensures stream[i].Err? ==> Drain(stream) == Err(stream[i].error)
    ensures stream[i].Ok? ==> Drain(stream[..i + 1]) == Ok(rows + [stream[i].value])
  {
    assert stream[..i + 1][..i] == stream[..i];
    if stream[i].Err? {
      DrainKeepsError(stream, i + 1);
    }
  }

  /** One more row updates the partition the way the loop body does. */
  lemma PartitionStep(rows: seq<LabelledRow>, row: LabelledRow)
    ensures var (prevId, nextId, stories) := Partition(rows);
      Partition(rows + [row]) ==
        ( if row.tag == PREV then row.id else prevId,
          if row.tag == NEXT then row.id else nextId,
          stories + if row.tag == CURRENT then [Story(row.id, row.name)] else [] )
  {
    PartsStep(rows, row);
  }

  /** The same, field by field. */
  lemma PartsStep(rows: seq<LabelledRow>, row: LabelledRow)
    ensures LastId(rows + [row], PREV) == if row.tag == PREV then row.id else LastId(rows, PREV)
    ensures LastId(rows + [row], NEXT) == if row.tag == NEXT then row.id else LastId(rows, NEXT)
    ensures AsStories(WithLabel(rows + [row], CURRENT))
      == AsStories(WithLabel(rows, CURRENT)) + if row.tag == CURRENT then [Story(row.id, row.name)] else []
  {
    assert (rows + [row])[..|rows|] == rows;
    var w := WithLabel(rows, CURRENT);
    assert WithLabel(rows + [row], CURRENT) == w + if row.tag == CURRENT then [row] else [] by {
      WithLabelAppend(rows, [row], CURRENT);
      assert WithLabel([row], CURRENT) == if row.tag == CURRENT then [row] else [];
    }
    if row.tag == CURRENT {
      assert AsStories(w + [row]) == AsStories(w) + [Story(row.id, row.name)];
    } else {
      assert w + [] == w;
    }
    assert LastId(rows + [row], PREV) == if row.tag == PREV then row.id else LastId(rows, PREV);
    assert LastId(rows + [row], NEXT) == if row.tag == NEXT then row.id else LastId(rows, NEXT);
    assert AsStories(WithLabel(rows + [row], CURRENT)) == AsStories(w) + if row.tag == CURRENT then [Story(row.id, row.name)] else [];
  }

  /** Rows after the last row with a label do not change its id; with no
      such row at all the id is 0. */
  lemma {:induction false} LastIdSuffix(a: seq<LabelledRow>, b: seq<LabelledRow>, tag: string)
    requires forall k :: 0 <= k < |b| ==> b[k].tag != tag
    ensures LastId(a + b, tag) == LastId(a, tag)
    ensures LastId(b, tag) == 0
    decreases |b|
  {
    if b == [] {
      assert a + b == a;
    } else {
      var n := |b| - 1;
      assert (a + b)[..|a + b| - 1] == a + b[..n];
      LastIdSuffix(a, b[..n], tag);
    }
  }

  /** The last one wins: with several rows of a label, the id is the one of
      the last of them, whatever came before. */
  lemma LastIdLastWins(rows: seq<LabelledRow>, tag: string, j: nat)
    requires j < |rows| && rows[j].tag == tag
    requires forall k :: j < k < |rows| ==> rows[k].tag != tag
    ensures LastId(rows, tag) == rows[j].id
  {
    var a, b := rows[..j + 1], rows[j + 1..];
    assert rows == a + b;
    assert a[..j] == rows[..j];
    LastIdSuffix(a, b, tag);
  }

  /** Any other label is skipped: a row whose label is none of the three
      changes nothing, wherever it appears. */
  lemma OtherLabelSkipped(a: seq<LabelledRow>, row: LabelledRow, b: seq<LabelledRow>)
    requires row.tag != PREV && row.tag != CURRENT && row.tag != NEXT
    ensures Partition(a + [row] + b) == Partition(a + b)
  {
    assert LastId(a + [row] + b, PREV) == LastId(a + b, PREV) by {
      LastIdSkip(a, row, b, PREV);
    }
    assert LastId(a + [row] + b, NEXT) == LastId(a + b, NEXT) by {
      LastIdSkip(a, row, b, NEXT);
    }
    assert WithLabel(a + [row] + b, CURRENT) == WithLabel(a + b, CURRENT) by {
      WithLabelAppend(a + [row], b, CURRENT);
      WithLabelAppend(a, [row], CURRENT);
      WithLabelAppend(a, b, CURRENT);
      assert WithLabel([row], CURRENT) == [];
    }
  }

  lemma {:induction false} LastIdSkip(a: seq<LabelledRow>, row: LabelledRow, b: seq<LabelledRow>, tag: string)
    requires row.tag != tag
    ensures LastId(a + [row] + b, tag) == LastId(a + b, tag)
    decreases |b|
  {
    if b == [] {
      assert a + [row] + b == a + [row] && a + b == a;
      assert (a + [row])[..|a|] == a;
    } else {
      var n := |b| - 1;
      assert (a + [row] + b)[..|a| + 1 + n] == a + [row] + b[..n];
      assert (a + b)[..|a| + n] == a + b[..n];
      LastIdSkip(a, row, b[..n], tag);
    }
  }

  /** The repository over the window query: for the story at index `i` of
      an ascending table, `select_stories` gives the id of the start of the
      preceding page (0 on the first row), the id of the row 100 places on
      (0 when the table ends first) and the page itself. */
  lemma PartitionOfWindow(t: seq<Story>, i: nat)
    requires Ascending(t) && i < |t|
    ensures Partition(Window(t, t[i].id)) ==
      ( if i == 0 then 0 else t[Max(0, i - PAGE_SIZE)].id,
        if i + PAGE_SIZE < |t| then t[i + PAGE_SIZE].id else 0,
        CurrentPart(t, i) )
  {
    WindowAt(t, i);
    PartitionOfParts(PrevPart(t, i), CurrentPart(t, i), NextPart(t, i));
  }

  /** The partition of the three labelled parts gives back the parts. */
  lemma PartitionOfParts(prev: seq<Story>, current: seq<Story>, next: seq<Story>)
    requires |prev| <= 1 && |next| <= 1
    ensures Partition(Labelled(prev, PREV) + Labelled(current, CURRENT) + Labelled(next, NEXT)) ==
      (if prev == [] then 0 else prev[0].id, if next == [] then 0 else next[0].id, current)
  {
    PickPart(prev, current, next);
    assert AsStories(Labelled(current, CURRENT)) == current;
    PrevOfParts(prev, current, next);
    NextOfParts(prev, current, next);
  }

  /** The id of the rows labelled `prev` is that of the one such row, or 0. */
  lemma PrevOfParts(prev: seq<Story>, current: seq<Story>, next: seq<Story>)
    requires |prev| <= 1
    ensures LastId(Labelled(prev, PREV) + Labelled(current, CURRENT) + Labelled(next, NEXT), PREV) ==
      if prev == [] then 0 else prev[0].id
  {
    var p, c, n := Labelled(prev, PREV), Labelled(current, CURRENT), Labelled(next, NEXT);
    LabelsDistinct();
    assert p + c + n == p + (c + n);
    LastIdSuffix(p, c + n, PREV);
    if prev != [] {
      assert p[..0] == [];
    }
  }

  /** The id of the rows labelled `next` is that of the one such row, or 0. */
  lemma NextOfParts(prev: seq<Story>, current: seq<Story>, next: seq<Story>)
    requires |next| <= 1
    ensures LastId(Labelled(prev, PREV) + Labelled(current, CURRENT) + Labelled(next, NEXT), NEXT) ==
      if next == [] then 0 else next[0].id
  {
    var p, c, n := Labelled(prev, PREV), Labelled(current, CURRENT), Labelled(next, NEXT);
    var w := p + c + n;
    LabelsDistinct();
    if next != [] {
      LastIdLastWins(w, NEXT, |w| - 1);
    } else {
      assert w == [] + (p + c);
      LastIdSuffix([], p + c, NEXT);
    }
  }

  /** A cursor that is not the id of a story gives no prev, no next and no
      stories. */
  lemma PartitionOfMissingCursor(t: seq<Story>, c: i32)
    requires !HasId(t, c)
    ensures Partition(Window(t, c)) == (0, 0, [])
  {
  }

  /** `select_story`: the first row read, or `NotFound` when there is none. */
  function SelectStory(query: Res<Stream<Story>>, id: i32): (r: Res<Story>)
    ensures query.Err? ==> r == Err(query.error)
    ensures query.Ok? && query.value == [] ==> r == Err(NotFoundError("story not found: " + IntText(id)))
    ensures query.Ok? && query.value != [] ==> r == query.value[0]
  {
    match query
    case Err(e) => Err(e)
    case Ok(stream) =>
      if stream == [] then Err(NotFoundError("story not found: " + IntText(id)))
      else match stream[0]
        case Err(e) => Err(e)
        case Ok(story) => Ok(story)
  }

  /** Every row read without error. */
  function AllOk<T>(rows: seq<T>): (s: Stream<T>)
    ensures |s| == |rows| && forall k :: 0 <= k < |rows| ==> s[k] == Ok(rows[k])
  {
    seq(|rows|, k requires 0 <= k < |rows| => Ok(rows[k]))
  }

  /** Over the `FETCH` query of an ascending table: the story with the id
      when there is one, and `NotFound` exactly when there is none. */
  lemma SelectStoryOfFetch(t: seq<Story>, id: i32)
    requires Ascending(t)
    ensures var r := SelectStory(Ok(AllOk(Fetch(t, id))), id);
      && (r.Ok? <==> HasId(t, id))
      && (r.Ok? ==> r.value in t && r.value.id == id)
      && (r.Err? ==> r.error.NotFound?)
  {
    FetchFinds(t, id);
  }

  /** `insert_story`: the story with the id the insert returned, or
      `Internal` when no row came back. */
  function InsertStory(query: Res<Stream<i32>>, name: string): (r: Res<Story>)
    ensures query.Ok? && query.value != [] && query.value[0].Ok? ==> r == Ok(Story(query.value[0].value, name))
    ensures query.Ok? && query.value == [] ==> r == Err(InternalError("failed to insert story: " + name))
    ensures r.Err? <==> query.Err? || query.value == [] || query.value[0].Err?
  {
    match query
    case Err(e) => Err(e)
    case Ok(stream) =>
      if stream == [] then Err(InternalError("failed to insert story: " + name))
      else match stream[0]
        case Err(e) => Err(e)
        case Ok(id) => Ok(Story(id, name))
  }

  /** `update_story`: the story as updated when some row changed, and
      `Internal` when none did. */
  function UpdateStory(numRows: Res<nat>, id: i32, name: string): (r: Res<Story>)
    ensures r.Ok? <==> numRows.Ok? && numRows.value > 0
    ensures r.Ok? ==> r.value == Story(id, name)
    ensures numRows == Ok(0) ==> r == Err(InternalError("unable to update story"))
    ensures numRows.Err? ==> r == Err(numRows.error)
  {
    match numRows
    case Err(e) => Err(e)
    case Ok(n) =>
      if n > 0 then Ok(Story(id, name)) else Err(InternalError("unable to update story"))
  }

  /** With `UPDATE`'s row count over an ascending table, the update succeeds
      exactly when the story exists. */
  lemma UpdateStoryOfTable(t: seq<Story>, id: i32, name: string)
    requires Ascending(t)
    ensures UpdateStory(Ok(|Fetch(t, id)|), id, name).Ok? <==> HasId(t, id)
  {
    FetchFinds(t, id);
  }

  /** The two tables `delete_story` touches. */
  datatype Db = Db(stories: seq<Story>, tasks: seq<Task>)

  /** The steps of `delete_story` that can fail, in the order they run. */
  datatype Step = Checkout | PrepareDeleteTasks | PrepareDeleteStory | Begin | DeleteTasks | DeleteStory | Commit

  /** `delete_story`: inside one transaction, delete the story's tasks, then
      the story, then commit. A failure at any step returns its error, and
      the transaction, if begun, is dropped uncommitted, so the tables are
      as before. */
  function DeleteStoryTx(db: Db, id: i32, failure: Option<(Step, PgError)>): (r: (Res<nat>, Db))
    ensures failure.Some? ==> r.0 == Err(FromForeign(failure.value.1)) && r.1 == db
    ensures failure.None? ==> r.0 == Ok(SqlTasks.DeleteByStory(db.tasks, id).1 + DeleteRows(db.stories, id).1)
    ensures failure.None? ==> r.1 == Db(DeleteRows(db.stories, id).0, SqlTasks.DeleteByStory(db.tasks, id).0)
  {
    var (tasksLeft, numTasks) := SqlTasks.DeleteByStory(db.tasks, id);
    var afterTasks := Db(db.stories, tasksLeft);
    var (storiesLeft, numStories) := DeleteRows(afterTasks.stories, id);
    var afterStory := Db(storiesLeft, afterTasks.tasks);
    match failure
    case Some((_, e)) => (Err(FromForeign(e)), db)
    case None => (Ok(numTasks + numStories), afterStory)
  }

  /** A committed delete removes the story and all its tasks, keeps every
      other row, and counts the story (when it existed) and its tasks. */
  lemma DeleteStoryEffect(db: Db, id: i32)
    requires Ascending(db.stories)
    ensures var (r, after) := DeleteStoryTx(db, id, None);
      && r == Ok(SqlTasks.CountOf(db.tasks, id) + (if HasId(db.stories, id) then 1 else 0))
      && (forall s :: s in after.stories <==> s in db.stories && s.id != id)
      && (forall x :: x in after.tasks <==> x in db.tasks && x.storyId != id)
  {
    DeleteRowsRemoves(db.stories, id);
    SqlTasks.DeleteByStoryRemoves(db.tasks, id);
  }
}

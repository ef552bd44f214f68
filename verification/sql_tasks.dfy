/** The task queries of src/db/sql/tasks.rs: the page query `SELECT` (the
    tasks of one story from a cursor id on, ascending, at most ten) and
    `DELETE_BY_STORY`. The tasks table is a sequence in ascending id order,
    ids being the primary key. */
module SqlTasks {
  import opened Base
  import opened Domain

  /** `limit 10`. */
  const LIMIT: nat := 10

  /** Ids are unique and the table is read in `order by id`. */
  predicate Ascending(t: seq<Task>) {
    forall i, j :: 0 <= i < j < |t| ==> t[i].id < t[j].id
  }

  /** `where story_id = $1 and id >= $2`. */
  predicate Qualifies(x: Task, storyId: i32, cursor: i32) {
    x.storyId == storyId && x.id >= cursor
  }

  /** The qualifying tasks, in table order. */
  function Matching(t: seq<Task>, storyId: i32, cursor: i32): (r: seq<Task>)
    ensures forall k :: 0 <= k < |r| ==> Qualifies(r[k], storyId, cursor)
  {
    if t == [] then []
    else (if Qualifies(t[0], storyId, cursor) then [t[0]] else []) + Matching(t[1..], storyId, cursor)
  }

  /** `SELECT`: the first ten qualifying tasks in id order. */
  function Select(t: seq<Task>, storyId: i32, cursor: i32): (r: seq<Task>)
    ensures |r| <= LIMIT
    ensures forall k :: 0 <= k < |r| ==> r[k] in t && Qualifies(r[k], storyId, cursor)
  {
    var m := Matching(t, storyId, cursor);
    MatchingMembers(t, storyId, cursor);
    m[..Min(LIMIT, |m|)]
  }

  /** A task is matched exactly when it is in the table and qualifies. */
  lemma {:induction false} MatchingMembers(t: seq<Task>, storyId: i32, cursor: i32)
    ensures forall x :: x in Matching(t, storyId, cursor) <==> x in t && Qualifies(x, storyId, cursor)
    decreases |t|
  {
    if t != [] {
      MatchingMembers(t[1..], storyId, cursor);
      assert t == [t[0]] + t[1..];
    }
  }

  /** A filter keeps the order of the table. */
  lemma {:induction false} MatchingAscending(t: seq<Task>, storyId: i32, cursor: i32)
    requires Ascending(t)
    ensures Ascending(Matching(t, storyId, cursor))
    decreases |t|
  {
    if t != [] {
      var rest := Matching(t[1..], storyId, cursor);
      assert Ascending(t[1..]);
      MatchingAscending(t[1..], storyId, cursor);
      MatchingMembers(t[1..], storyId, cursor);
      forall k | 0 <= k < |rest| ensures t[0].id < rest[k].id {
        assert rest[k] in t[1..];
      }
    }
  }

  /** The page is in ascending id order. */
  lemma SelectAscending(t: seq<Task>, storyId: i32, cursor: i32)
    requires Ascending(t)
    ensures Ascending(Select(t, storyId, cursor))
  {
    MatchingAscending(t, storyId, cursor);
  }

  /** The page holds the smallest qualifying ids: a qualifying task left out
      comes after a full page, and after every task on it. */
  lemma SelectSmallest(t: seq<Task>, storyId: i32, cursor: i32, x: Task)
    requires Ascending(t)
    requires x in t && Qualifies(x, storyId, cursor)
    requires x !in Select(t, storyId, cursor)
    ensures |Select(t, storyId, cursor)| == LIMIT
    ensures forall k :: 0 <= k < LIMIT ==> Select(t, storyId, cursor)[k].id < x.id
  {
    var m := Matching(t, storyId, cursor);
    MatchingMembers(t, storyId, cursor);
    MatchingAscending(t, storyId, cursor);
    var j :| 0 <= j < |m| && m[j] == x;
    assert j >= LIMIT;
  }

  /** The cursor need not be the id of a task: a cursor that no task of the
      story has gives the same matches, and so the same page, as the id
      after it. */
  lemma {:induction false} CursorNeedNotExist(t: seq<Task>, storyId: i32, cursor: i32)
    requires cursor < I32_MAX
    requires forall x :: x in t && x.storyId == storyId ==> x.id != cursor
    ensures Matching(t, storyId, cursor) == Matching(t, storyId, (cursor + 1) as i32)
    ensures Select(t, storyId, cursor) == Select(t, storyId, (cursor + 1) as i32)
    decreases |t|
  {
    if t != [] {
      assert t[0] in t;
      forall x | x in t[1..] && x.storyId == storyId ensures x.id != cursor {
        assert x in t;
      }
      CursorNeedNotExist(t[1..], storyId, cursor);
    }
  }

  /** Paging by `last id + 1` loses and repeats nothing: the tasks that
      qualify from the id after the `k`-th match on are exactly the matches
      after it. */
  lemma {:induction false} MatchingFrom(t: seq<Task>, storyId: i32, cursor: i32, k: nat)
    requires Ascending(t)
    requires 0 < k <= |Matching(t, storyId, cursor)|
    requires Matching(t, storyId, cursor)[k - 1].id < I32_MAX
    ensures Matching(t, storyId, Matching(t, storyId, cursor)[k - 1].id + 1) == Matching(t, storyId, cursor)[k..]
    decreases |t|
  {
    var rest := Matching(t[1..], storyId, cursor);
    AscendingRest(t);
    if Qualifies(t[0], storyId, cursor) {
      assert Matching(t, storyId, cursor) == [t[0]] + rest;
      if k == 1 {
        MatchingFromHead(t, storyId, cursor);
      } else {
        MatchingFrom(t[1..], storyId, cursor, k - 1);
        FirstBelowRest(t, storyId, cursor, k - 2);
        MatchingFromKept(t, storyId, cursor, k);
      }
    } else {
      assert Matching(t, storyId, cursor) == rest;
      MatchingFrom(t[1..], storyId, cursor, k);
      MatchingFromSkipped(t, storyId, cursor, k);
    }
  }

  /** From the id after the first task on, when that task qualifies, the
      matches are the ones after it. */
  lemma MatchingFromHead(t: seq<Task>, storyId: i32, cursor: i32)
    requires Ascending(t) && t != [] && Qualifies(t[0], storyId, cursor)
    requires t[0].id < I32_MAX
    ensures Matching(t, storyId, t[0].id + 1) == Matching(t, storyId, cursor)[1..]
  {
    var d := t[0].id + 1;
    var rest := Matching(t[1..], storyId, cursor);
    assert Matching(t, storyId, cursor) == [t[0]] + rest;
    AscendingRest(t);
    SameMatching(t[1..], storyId, cursor, d, t[0].id);
    assert Matching(t, storyId, d) == Matching(t[1..], storyId, d);
  }

  /** The step of `MatchingFrom` past a first task that qualifies. */
  lemma MatchingFromKept(t: seq<Task>, storyId: i32, cursor: i32, k: nat)
    requires t != [] && Qualifies(t[0], storyId, cursor)
    requires 1 < k <= |Matching(t, storyId, cursor)|
    requires k - 1 <= |Matching(t[1..], storyId, cursor)|
    requires Matching(t, storyId, cursor)[k - 1].id < I32_MAX
    requires Matching(t[1..], storyId, cursor)[k - 2].id < I32_MAX
    requires var rest := Matching(t[1..], storyId, cursor);
      && t[0].id < rest[k - 2].id
      && Matching(t[1..], storyId, rest[k - 2].id + 1) == rest[k - 1..]
    ensures Matching(t, storyId, Matching(t, storyId, cursor)[k - 1].id + 1) == Matching(t, storyId, cursor)[k..]
  {
    var m := Matching(t, storyId, cursor);
    var rest := Matching(t[1..], storyId, cursor);
    var d := m[k - 1].id + 1;
    assert m == [t[0]] + rest;
    assert m[k - 1] == rest[k - 2];
    assert m[k..] == rest[k - 1..];
    assert Matching(t, storyId, d) == Matching(t[1..], storyId, d);
  }

  /** The rest of an ascending table is ascending, and its ids are all
      above the first. */
  lemma AscendingRest(t: seq<Task>)
    requires Ascending(t) && t != []
    ensures Ascending(t[1..])
    ensures forall k :: 0 <= k < |t[1..]| ==> t[1..][k].id > t[0].id
  {
  }

  /** In an ascending table, the first task comes before every match in
      the rest. */
  lemma FirstBelowRest(t: seq<Task>, storyId: i32, cursor: i32, j: nat)
    requires Ascending(t) && t != []
    requires j < |Matching(t[1..], storyId, cursor)|
    ensures t[0].id < Matching(t[1..], storyId, cursor)[j].id
  {
    var rest := Matching(t[1..], storyId, cursor);
    MatchingMembers(t[1..], storyId, cursor);
    assert rest[j] in t[1..];
  }

  /** The step of `MatchingFrom` past a first task that does not qualify. */
  lemma MatchingFromSkipped(t: seq<Task>, storyId: i32, cursor: i32, k: nat)
    requires t != [] && !Qualifies(t[0], storyId, cursor)
    requires 0 < k <= |Matching(t, storyId, cursor)|
    requires k <= |Matching(t[1..], storyId, cursor)|
    requires Matching(t, storyId, cursor)[k - 1].id < I32_MAX
    requires Matching(t[1..], storyId, cursor)[k - 1].id < I32_MAX
    requires var rest := Matching(t[1..], storyId, cursor);
      Matching(t[1..], storyId, rest[k - 1].id + 1) == rest[k..]
    ensures Matching(t, storyId, Matching(t, storyId, cursor)[k - 1].id + 1) == Matching(t, storyId, cursor)[k..]
  {
    var m := Matching(t, storyId, cursor);
    var d := m[k - 1].id + 1;
    assert m == Matching(t[1..], storyId, cursor);
    assert m[k - 1].id >= cursor by {
      MatchingMembers(t, storyId, cursor);
      assert m[k - 1] in m;
    }
    assert Matching(t, storyId, d) == Matching(t[1..], storyId, d);
  }

  /** Two cursors at or below every id of the table match the same tasks. */
  lemma {:induction false} SameMatching(t: seq<Task>, storyId: i32, c: i32, d: i32, below: int)
    requires forall k :: 0 <= k < |t| ==> t[k].id > below
    requires c <= below + 1 && d <= below + 1
    ensures Matching(t, storyId, c) == Matching(t, storyId, d)
    decreases |t|
  {
    if t != [] {
      SameMatching(t[1..], storyId, c, d, below);
    }
  }

  /** The next page of a page starts right after it: the tasks that qualify
      from the last id + 1 on are the ones after the page, with none skipped
      or repeated; after a page that is not full there are none. */
  lemma PageContinues(t: seq<Task>, storyId: i32, cursor: i32)
    requires Ascending(t)
    requires Select(t, storyId, cursor) != []
    requires var page := Select(t, storyId, cursor); page[|page| - 1].id < I32_MAX
    ensures var page := Select(t, storyId, cursor);
      && Matching(t, storyId, cursor) == page + Matching(t, storyId, page[|page| - 1].id + 1)
      && (|page| < LIMIT ==> Matching(t, storyId, page[|page| - 1].id + 1) == [])
  {
    var m := Matching(t, storyId, cursor);
    var k := |Select(t, storyId, cursor)|;
    assert Select(t, storyId, cursor) == m[..k];
    MatchingFrom(t, storyId, cursor, k);
    assert m == m[..k] + m[k..];
  }

  /** `DELETE_BY_STORY`: the tasks left, and the number of rows removed. */
  function DeleteByStory(t: seq<Task>, storyId: i32): (r: (seq<Task>, nat))
    ensures r.1 == |t| - |r.0|
  {
    var kept := Kept(t, storyId);
    KeptCount(t, storyId);
    (kept, |t| - |kept|)
  }

  /** The tasks of other stories, in table order. */
  function Kept(t: seq<Task>, storyId: i32): seq<Task> {
    if t == [] then []
    else (if t[0].storyId != storyId then [t[0]] else []) + Kept(t[1..], storyId)
  }

  /** The number of tasks of one story. */
  function CountOf(t: seq<Task>, storyId: i32): nat {
    if t == [] then 0
    else (if t[0].storyId == storyId then 1 else 0) + CountOf(t[1..], storyId)
  }

  lemma {:induction false} KeptCount(t: seq<Task>, storyId: i32)
    ensures |Kept(t, storyId)| + CountOf(t, storyId) == |t|
    decreases |t|
  {
    if t != [] {
      KeptCount(t[1..], storyId);
    }
  }

  /** Deleting removes exactly the story's tasks, counts them, and keeps
      every other task in place. */
  lemma {:induction false} DeleteByStoryRemoves(t: seq<Task>, storyId: i32)
    ensures DeleteByStory(t, storyId).1 == CountOf(t, storyId)
    ensures forall x :: x in DeleteByStory(t, storyId).0 <==> x in t && x.storyId != storyId
    decreases |t|
  {
    KeptCount(t, storyId);
    if t != [] {
      DeleteByStoryRemoves(t[1..], storyId);
      assert t == [t[0]] + t[1..];
    }
  }

  /** After the delete the story has no tasks left to page through, and every
      other story pages exactly as before. */
  lemma {:induction false} SelectAfterDelete(t: seq<Task>, storyId: i32, other: i32, cursor: i32)
    requires other != storyId
    ensures Matching(Kept(t, storyId), storyId, cursor) == []
    ensures Matching(Kept(t, storyId), other, cursor) == Matching(t, other, cursor)
    decreases |t|
  {
    if t != [] {
      SelectAfterDelete(t[1..], storyId, other, cursor);
      var rest := Kept(t[1..], storyId);
      if t[0].storyId != storyId {
        assert Kept(t, storyId) == [t[0]] + rest;
        assert ([t[0]] + rest)[1..] == rest;
      } else {
        assert Kept(t, storyId) == rest;
        assert Matching(t, other, cursor) == Matching(t[1..], other, cursor);
      }
    }
  }
}

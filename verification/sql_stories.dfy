/** The cursor-window query of src/db/sql/stories.rs: given a cursor id, one
    row labelled `prev` (the start of the preceding page), up to a page of
    rows labelled `current` starting at the cursor, and one row labelled
    `next` (the start of the following page). The stories table is a
    sequence in ascending id order, ids being the primary key. */
module SqlStories {
  import opened Base
  import opened Domain

  const FETCH: string := "select id, name from stories where id = $1"
  const INSERT: string := "insert into stories (name) values ($1) returning id"
  const DELETE: string := "delete from stories where id = $1"
  const UPDATE: string := "update stories set name = $1 where id = $2"
  const SELECT: string :=
    "\n" +
    "with cursor as (\n" +
    "    select id from stories\n" +
    "    where id = $1\n" +
    "    order by id limit 1\n" +
    "), previous_page as (\n" +
    "    select id, name from stories\n" +
    "    where id < (select id from cursor)\n" +
    "    order by id desc limit 100\n" +
    "), current_next_page as (\n" +
    "    select id, name from stories\n" +
    "    where id >= (select id from cursor)\n" +
    "    order by id limit 101\n" +
    ") (\n" +
    "    select id, name, 'prev' as label from previous_page\n" +
    "    order by id limit 1\n" +
    ") union all (\n" +
    "    select id, name, 'current' as label from current_next_page\n" +
    "    order by id limit 100\n" +
    ") union all (\n" +
    "    select id, name, 'next' as label from current_next_page\n" +
    "    order by id limit 1 offset 100\n" +
    ")"

  /** `limit 100` in `previous_page` and in the `current` part; `limit 101`
      and `offset 100` for the row after the page. */
  const PAGE_SIZE: nat := 100

  const PREV: string := "prev"
  const CURRENT: string := "current"
  const NEXT: string := "next"

  /** A row of the query: `id, name, label`. */
  datatype LabelledRow = LabelledRow(id: i32, name: string, tag: string)

  /** Ids are unique and the table is read in `order by id`. */
  predicate Ascending(t: seq<Story>) {
    forall i, j :: 0 <= i < j < |t| ==> t[i].id < t[j].id
  }

  predicate HasId(t: seq<Story>, c: i32) {
    exists k :: 0 <= k < |t| && t[k].id == c
  }

  /** `FETCH`: the rows whose id is the parameter. */
  function Fetch(t: seq<Story>, c: i32): (r: seq<Story>)
    ensures |r| <= |t|
    ensures forall k :: 0 <= k < |r| ==> r[k].id == c
  {
    if t == [] then []
    else (if t[0].id == c then [t[0]] else []) + Fetch(t[1..], c)
  }

  /** With unique ids `FETCH` returns the story with that id, or no row. */
  lemma {:induction false} FetchFinds(t: seq<Story>, c: i32)
    requires Ascending(t)
    ensures |Fetch(t, c)| <= 1
    ensures Fetch(t, c) != [] <==> HasId(t, c)
    ensures Fetch(t, c) != [] ==> Fetch(t, c)[0] in t && Fetch(t, c)[0].id == c
    decreases |t|
  {
    if t != [] {
      assert Ascending(t[1..]);
      FetchFinds(t[1..], c);
      if t[0].id != c && HasId(t, c) {
        var k :| 0 <= k < |t| && t[k].id == c;
        assert t[1..][k - 1].id == c;
      }
    }
  }

  /** `DELETE`: the stories left, and the number of rows removed. */
  function DeleteRows(t: seq<Story>, c: i32): (r: (seq<Story>, nat))
    ensures r.1 == |t| - |r.0|
  {
    if t == [] then ([], 0)
    else
      var rest := DeleteRows(t[1..], c);
      if t[0].id == c then (rest.0, rest.1 + 1) else ([t[0]] + rest.0, rest.1)
  }

  /** Deleting removes the row with the id, if there is one, and keeps the
      others in order. */
  lemma DeleteRowsRemoves(t: seq<Story>, c: i32)
    requires Ascending(t)
    ensures DeleteRows(t, c).1 == if HasId(t, c) then 1 else 0
    ensures forall s :: s in DeleteRows(t, c).0 <==> s in t && s.id != c
    ensures Ascending(DeleteRows(t, c).0)
  {
    DeleteRowsCount(t, c);
    DeleteRowsKept(t, c);
    DeleteRowsAscending(t, c);
  }

  lemma {:induction false} DeleteRowsCount(t: seq<Story>, c: i32)
    requires Ascending(t)
    ensures DeleteRows(t, c).1 == if HasId(t, c) then 1 else 0
    decreases |t|
  {
    if t != [] {
      assert Ascending(t[1..]);
      DeleteRowsCount(t[1..], c);
      FetchFinds(t, c);
      FetchFinds(t[1..], c);
      assert t == [t[0]] + t[1..];
    }
  }

  lemma {:induction false} DeleteRowsKept(t: seq<Story>, c: i32)
    ensures forall s :: s in DeleteRows(t, c).0 <==> s in t && s.id != c
    decreases |t|
  {
    if t != [] {
      DeleteRowsKept(t[1..], c);
      assert t == [t[0]] + t[1..];
    }
  }

  lemma {:induction false} DeleteRowsAscending(t: seq<Story>, c: i32)
    requires Ascending(t)
    ensures Ascending(DeleteRows(t, c).0)
    decreases |t|
  {
    if t != [] {
      assert Ascending(t[1..]);
      DeleteRowsAscending(t[1..], c);
      DeleteRowsKept(t[1..], c);
      var rest := DeleteRows(t[1..], c).0;
      if t[0].id != c {
        forall k | 0 <= k < |rest| ensures t[0].id < rest[k].id {
          assert rest[k] in t[1..];
        }
      }
    }
  }

  /** `where id < c`, in table order. */
  function Below(t: seq<Story>, c: i32): seq<Story> {
    if t == [] then []
    else (if t[0].id < c then [t[0]] else []) + Below(t[1..], c)
  }

  /** `where id >= c`, in table order. */
  function AtOrAbove(t: seq<Story>, c: i32): seq<Story> {
    if t == [] then []
    else (if t[0].id >= c then [t[0]] else []) + AtOrAbove(t[1..], c)
  }

  function Labelled(s: seq<Story>, tag: string): (r: seq<LabelledRow>)
    ensures |r| == |s|
    ensures forall k :: 0 <= k < |s| ==> r[k] == LabelledRow(s[k].id, s[k].name, tag)
  {
    seq(|s|, k requires 0 <= k < |s| => LabelledRow(s[k].id, s[k].name, tag))
  }

  /** `SELECT`: the `cursor` CTE finds the row whose id is the parameter;
      without it every comparison with the cursor is NULL and no row comes
      back. `previous_page` is the up-to-100 largest ids below the cursor, of
      which the smallest is returned; `current_next_page` is the up-to-101
      smallest ids from the cursor on, of which the first 100 are `current`
      and the 101st is `next`. The three parts are concatenated in that
      order. */
  function Window(t: seq<Story>, c: i32): (r: seq<LabelledRow>)
    ensures r != [] <==> HasId(t, c)
  {
    if !HasId(t, c) then []
    else
      CursorIsAtOrAbove(t, c);
      Parts(Below(t, c), AtOrAbove(t, c))
  }

  /** The three parts, from the rows below the cursor and the rows from the
      cursor on. */
  function Parts(previous: seq<Story>, currentNext: seq<Story>): (r: seq<LabelledRow>)
    requires currentNext != []
    ensures r != []
  {
    var page := CurrentNextPage(currentNext);
    Labelled(PrevRows(previous), PREV) + Labelled(CurrentRows(page), CURRENT) + Labelled(NextRows(page), NEXT)
  }

  /** `previous_page` (the last up-to-100 rows below the cursor), then
      `order by id limit 1`. */
  function PrevRows(previous: seq<Story>): seq<Story> {
    var previousPage := previous[|previous| - Min(PAGE_SIZE, |previous|)..];
    previousPage[..Min(1, |previousPage|)]
  }

  /** `current_next_page` (the first up-to-101 rows from the cursor on). */
  function CurrentNextPage(currentNext: seq<Story>): seq<Story> {
    currentNext[..Min(PAGE_SIZE + 1, |currentNext|)]
  }

  /** `order by id limit 100` of `current_next_page`. */
  function CurrentRows(page: seq<Story>): seq<Story> {
    page[..Min(PAGE_SIZE, |page|)]
  }

  /** `order by id limit 1 offset 100` of `current_next_page`. */
  function NextRows(page: seq<Story>): seq<Story> {
    page[Min(PAGE_SIZE, |page|)..]
  }

  /** The cursor row itself is among the ids from the cursor on. */
  lemma {:induction false} CursorIsAtOrAbove(t: seq<Story>, c: i32)
    requires HasId(t, c)
    ensures AtOrAbove(t, c) != []
    decreases |t|
  {
    if t[0].id != c {
      var k :| 0 <= k < |t| && t[k].id == c;
      assert t[1..][k - 1].id == c;
      CursorIsAtOrAbove(t[1..], c);
    }
  }

  /** In an ascending table the row at index `i` splits it: the rows before
      it are the ids below its id, the rest the ids from its id on. */
  lemma {:induction false} SplitAt(t: seq<Story>, i: nat)
    requires Ascending(t) && i < |t|
    ensures Below(t, t[i].id) == t[..i] && AtOrAbove(t, t[i].id) == t[i..]
    decreases i
  {
    var c := t[i].id;
    if i == 0 {
      AllAtOrAbove(t, c);
    } else {
      assert t[0].id < c;
      assert Ascending(t[1..]);
      SplitAt(t[1..], i - 1);
      assert t[1..][i - 1] == t[i];
      assert t[..i] == [t[0]] + t[1..][..i - 1];
    }
  }

  lemma {:induction false} AllAtOrAbove(t: seq<Story>, c: i32)
    requires Ascending(t) && t != [] && t[0].id >= c
    ensures Below(t, c) == [] && AtOrAbove(t, c) == t
    decreases |t|
  {
    if |t| > 1 {
      assert Ascending(t[1..]) && t[1].id >= c;
      AllAtOrAbove(t[1..], c);
    }
  }

  /** Rows of a window with one label, in order. */
  function WithLabel(rows: seq<LabelledRow>, tag: string): seq<LabelledRow> {
    if rows == [] then []
    else (if rows[0].tag == tag then [rows[0]] else []) + WithLabel(rows[1..], tag)
  }

  /** The row before the page at index `i`: the first row of the preceding
      page, which is 100 rows back, or the first row of the table. */
  function PrevPart(t: seq<Story>, i: nat): seq<Story>
    requires i < |t|
  {
    if i == 0 then [] else [t[Max(0, i - PAGE_SIZE)]]
  }

  function CurrentPart(t: seq<Story>, i: nat): seq<Story>
    requires i < |t|
  {
    t[i..Min(i + PAGE_SIZE, |t|)]
  }

  /** The row after the page at index `i`: the 101st row from the cursor. */
  function NextPart(t: seq<Story>, i: nat): seq<Story>
    requires i < |t|
  {
    if i + PAGE_SIZE < |t| then [t[i + PAGE_SIZE]] else []
  }

  /** The window at the row with index `i`, by position: `prev` is the row
      100 places back (or the first row, or none when the cursor is the
      first row), `current` the rows `i` up to `i + 99`, `next` the row at
      `i + 100` if the table is that long. */
  lemma WindowAt(t: seq<Story>, i: nat)
    requires Ascending(t) && i < |t|
    ensures Window(t, t[i].id) ==
      Labelled(PrevPart(t, i), PREV) + Labelled(CurrentPart(t, i), CURRENT) + Labelled(NextPart(t, i), NEXT)
  {
    SplitAt(t, i);
    WindowOfSplit(t, i);
  }

  lemma WindowOfSplit(t: seq<Story>, i: nat)
    requires i < |t|
    requires Below(t, t[i].id) == t[..i] && AtOrAbove(t, t[i].id) == t[i..]
    ensures Window(t, t[i].id) ==
      Labelled(PrevPart(t, i), PREV) + Labelled(CurrentPart(t, i), CURRENT) + Labelled(NextPart(t, i), NEXT)
  {
    assert HasId(t, t[i].id);
    PartsAt(t, i);
  }

  lemma PartsAt(t: seq<Story>, i: nat)
    requires i < |t|
    ensures Parts(t[..i], t[i..]) ==
      Labelled(PrevPart(t, i), PREV) + Labelled(CurrentPart(t, i), CURRENT) + Labelled(NextPart(t, i), NEXT)
  {
    PrevRowsAt(t, i);
    PageRowsAt(t, i);
  }

  /** `previous_page` then `limit 1` picks the row 100 places back, or the
      first row. */
  lemma PrevRowsAt(t: seq<Story>, i: nat)
    requires i < |t|
    ensures PrevRows(t[..i]) == PrevPart(t, i)
  {
    var m := Min(PAGE_SIZE, i);
    var previousPage := t[..i][i - m..];
    if i > 0 {
      assert previousPage[0] == t[i - m];
    }
  }

  /** `current_next_page` split at 100 gives the current rows and the next
      row. */
  lemma PageRowsAt(t: seq<Story>, i: nat)
    requires i < |t|
    ensures CurrentRows(CurrentNextPage(t[i..])) == CurrentPart(t, i)
    ensures NextRows(CurrentNextPage(t[i..])) == NextPart(t, i)
  {
    var k := Min(PAGE_SIZE + 1, |t| - i);
    var page := CurrentNextPage(t[i..]);
    assert page == t[i..i + k];
    var n := Min(PAGE_SIZE, k);
    assert i + n == Min(i + PAGE_SIZE, |t|);
    assert CurrentRows(page) == t[i..i + n];
    assert NextRows(page) == t[i + n..i + k];
  }

  lemma WithLabelAppend(a: seq<LabelledRow>, b: seq<LabelledRow>, tag: string)
    ensures WithLabel(a + b, tag) == WithLabel(a, tag) + WithLabel(b, tag)
  {
    if a != [] {
      assert (a + b)[1..] == a[1..] + b;
      WithLabelAppend(a[1..], b, tag);
    } else {
      assert a + b == b;
    }
  }

  lemma {:induction false} WithLabelLabelled(s: seq<Story>, l: string, tag: string)
    ensures WithLabel(Labelled(s, l), tag) == if l == tag then Labelled(s, l) else []
    decreases |s|
  {
    if s != [] {
      assert Labelled(s, l)[1..] == Labelled(s[1..], l);
      WithLabelLabelled(s[1..], l, tag);
    }
  }

  /** The three labels are different words. */
  lemma LabelsDistinct()
    ensures PREV != CURRENT && CURRENT != NEXT && PREV != NEXT
  {
    assert PREV[0] != CURRENT[0] && CURRENT[0] != NEXT[0] && PREV[0] != NEXT[0];
  }

  /** Picking one label out of three labelled parts gives that part. */
  lemma PickPart(a: seq<Story>, b: seq<Story>, c: seq<Story>)
    ensures var w := Labelled(a, PREV) + Labelled(b, CURRENT) + Labelled(c, NEXT);
      && WithLabel(w, PREV) == Labelled(a, PREV)
      && WithLabel(w, CURRENT) == Labelled(b, CURRENT)
      && WithLabel(w, NEXT) == Labelled(c, NEXT)
  {
    LabelsDistinct();
    var p, q, r := Labelled(a, PREV), Labelled(b, CURRENT), Labelled(c, NEXT);
    forall tag | tag in {PREV, CURRENT, NEXT}
      ensures WithLabel(p + q + r, tag) == WithLabel(p, tag) + WithLabel(q, tag) + WithLabel(r, tag)
    {
      WithLabelAppend(p + q, r, tag);
      WithLabelAppend(p, q, tag);
    }
    forall tag | tag in {PREV, CURRENT, NEXT}
      ensures WithLabel(p, tag) == if tag == PREV then p else []
      ensures WithLabel(q, tag) == if tag == CURRENT then q else []
      ensures WithLabel(r, tag) == if tag == NEXT then r else []
    {
      WithLabelLabelled(a, PREV, tag);
      WithLabelLabelled(b, CURRENT, tag);
      WithLabelLabelled(c, NEXT, tag);
    }
  }

  /** Each label picks its part of the window: at most one `prev` row, the
      page of `current` rows, at most one `next` row. */
  lemma WindowParts(t: seq<Story>, i: nat)
    requires Ascending(t) && i < |t|
    ensures WithLabel(Window(t, t[i].id), PREV) == Labelled(PrevPart(t, i), PREV)
    ensures WithLabel(Window(t, t[i].id), CURRENT) == Labelled(CurrentPart(t, i), CURRENT)
    ensures WithLabel(Window(t, t[i].id), NEXT) == Labelled(NextPart(t, i), NEXT)
  {
    WindowAt(t, i);
    PickPart(PrevPart(t, i), CurrentPart(t, i), NextPart(t, i));
  }

  /** The ids of a window strictly increase: the `prev` row comes before
      every `current` row and the `next` row after them. */
  lemma WindowAscending(t: seq<Story>, i: nat)
    requires Ascending(t) && i < |t|
    ensures var w := Window(t, t[i].id);
      forall j, k :: 0 <= j < k < |w| ==> w[j].id < w[k].id
  {
    WindowAt(t, i);
    var u := PrevPart(t, i) + CurrentPart(t, i) + NextPart(t, i);
    assert Ascending(u) by {
      AscendingParts(t, i);
    }
    LabelledIds(PrevPart(t, i), CurrentPart(t, i), NextPart(t, i));
  }

  lemma AscendingParts(t: seq<Story>, i: nat)
    requires Ascending(t) && i < |t|
    ensures Ascending(PrevPart(t, i) + CurrentPart(t, i) + NextPart(t, i))
  {
    var e := Min(i + PAGE_SIZE, |t|);
    var lo := if i == 0 then i else Max(0, i - PAGE_SIZE);
    var hi := if i + PAGE_SIZE < |t| then i + PAGE_SIZE + 1 else e;
    // The parts are rows `lo` (when i > 0), `i` to `e - 1`, and `e` (when
    // there is a next row), at increasing table positions.
    var u := PrevPart(t, i) + CurrentPart(t, i) + NextPart(t, i);
    var pos := seq(|u|, k requires 0 <= k < |u| => if i > 0 && k == 0 then lo else i + k - |PrevPart(t, i)|);
    forall k | 0 <= k < |u| ensures 0 <= pos[k] < |t| && u[k] == t[pos[k]] {
    }
    forall j, k | 0 <= j < k < |u| ensures u[j].id < u[k].id {
      assert pos[j] < pos[k];
    }
  }

  lemma LabelledIds(a: seq<Story>, b: seq<Story>, c: seq<Story>)
    ensures var u, w := a + b + c, Labelled(a, PREV) + Labelled(b, CURRENT) + Labelled(c, NEXT);
      |w| == |u| && forall k :: 0 <= k < |u| ==> w[k].id == u[k].id
  {
  }

  /** Following `next` and then `prev` returns to the cursor: the page that
      starts at the `next` row of the page at index `i` has row `i` as its
      `prev` row. */
  lemma NextThenPrev(t: seq<Story>, i: nat, n: LabelledRow)
    requires Ascending(t) && i < |t|
    requires WithLabel(Window(t, t[i].id), NEXT) == [n]
    ensures WithLabel(Window(t, n.id), PREV) == [LabelledRow(t[i].id, t[i].name, PREV)]
  {
    NextRow(t, i, n);
    PrevRowOf(t, i + PAGE_SIZE);
  }

  /** The `next` row of the page at index `i` is the row 100 places on. */
  lemma NextRow(t: seq<Story>, i: nat, n: LabelledRow)
    requires Ascending(t) && i < |t|
    requires WithLabel(Window(t, t[i].id), NEXT) == [n]
    ensures i + PAGE_SIZE < |t| && n == LabelledRow(t[i + PAGE_SIZE].id, t[i + PAGE_SIZE].name, NEXT)
  {
    WindowParts(t, i);
    assert Labelled(NextPart(t, i), NEXT) == [n];
    assert n == Labelled(NextPart(t, i), NEXT)[0];
  }

  /** The `prev` row of the page at index `i` is the row 100 places back,
      or the first row. */
  lemma PrevRow(t: seq<Story>, i: nat, p: LabelledRow)
    requires Ascending(t) && i < |t|
    requires WithLabel(Window(t, t[i].id), PREV) == [p]
    ensures i > 0 && p == LabelledRow(t[Max(0, i - PAGE_SIZE)].id, t[Max(0, i - PAGE_SIZE)].name, PREV)
  {
    WindowParts(t, i);
    assert Labelled(PrevPart(t, i), PREV) == [p];
    assert p == Labelled(PrevPart(t, i), PREV)[0];
  }

  lemma PrevRowOf(t: seq<Story>, j: nat)
    requires Ascending(t) && PAGE_SIZE <= j < |t|
    ensures WithLabel(Window(t, t[j].id), PREV) == [LabelledRow(t[j - PAGE_SIZE].id, t[j - PAGE_SIZE].name, PREV)]
  {
    WindowParts(t, j);
  }

  lemma NextRowOf(t: seq<Story>, j: nat)
    requires Ascending(t) && j < |t|
    ensures WithLabel(Window(t, t[j].id), NEXT) == Labelled(NextPart(t, j), NEXT)
  {
    WindowParts(t, j);
  }

  /** Following `prev` and then `next` returns to the cursor only when the
      cursor is at least a whole page from the start; closer to the start
      `prev` is the first row, whose `next` row is 100 rows after it. */
  lemma PrevThenNext(t: seq<Story>, i: nat, p: LabelledRow)
    requires Ascending(t) && i < |t|
    requires WithLabel(Window(t, t[i].id), PREV) == [p]
    ensures WithLabel(Window(t, p.id), NEXT) == [LabelledRow(t[i].id, t[i].name, NEXT)] <==> i >= PAGE_SIZE
  {
    PrevRow(t, i, p);
    NextRowOf(t, Max(0, i - PAGE_SIZE));
    NextOfPrev(t, i);
  }

  lemma NextOfPrev(t: seq<Story>, i: nat)
    requires Ascending(t) && 0 < i < |t|
    ensures Labelled(NextPart(t, Max(0, i - PAGE_SIZE)), NEXT) == [LabelledRow(t[i].id, t[i].name, NEXT)]
      <==> i >= PAGE_SIZE
  {
    var j := Max(0, i - PAGE_SIZE);
    if i >= PAGE_SIZE {
      assert NextPart(t, j) == [t[i]];
    } else if PAGE_SIZE < |t| {
      assert j == 0 && NextPart(t, j) == [t[PAGE_SIZE]];
      assert t[PAGE_SIZE].id != t[i].id;
      assert Labelled(NextPart(t, j), NEXT)[0].id == t[PAGE_SIZE].id;
    }
  }
}

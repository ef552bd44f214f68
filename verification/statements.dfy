/** The hot-path statements of src/db/sql/statements.rs: four keys, each
    paired with one SQL text of the stories queries, and `cache`, which
    prepares all four and caches them only when every prepare succeeds. */
module Statements {
  import opened Base
  import opened Errors
  import opened Connection
  import SqlStories

  datatype StatementKey = SelectStories | SelectStory | InsertStory | DeleteStory

  /** The `queries` that `cache` prepares, in order. */
  const QUERIES: seq<(StatementKey, string)> := [
    (SelectStories, SqlStories.SELECT),
    (SelectStory, SqlStories.FETCH),
    (InsertStory, SqlStories.INSERT),
    (DeleteStory, SqlStories.DELETE)
  ]

  /** The text grouped with a key. */
  function SqlOf(key: StatementKey): (sql: string)
    ensures sql != []
  {
    match key
    case SelectStories => SqlStories.SELECT
    case SelectStory => SqlStories.FETCH
    case InsertStory => SqlStories.INSERT
    case DeleteStory => SqlStories.DELETE
  }

  /** The place of a key in the queries: every key is there, with its text. */
  function KeyIndex(key: StatementKey): (k: nat)
    ensures k < |QUERIES| && QUERIES[k] == (key, SqlOf(key))
  {
    match key
    case SelectStories => 0
    case SelectStory => 1
    case InsertStory => 2
    case DeleteStory => 3
  }

  /** No key appears twice in the queries, and no two keys share a text. */
  lemma QueriesDistinct()
    ensures Keys(QUERIES) == [SelectStories, SelectStory, InsertStory, DeleteStory]
    ensures DistinctKeys(QUERIES)
    ensures forall a: StatementKey, b: StatementKey :: a != b ==> SqlOf(a) != SqlOf(b)
  {
    // The four texts already differ in length.
    assert |SqlStories.SELECT| == 634;
    assert |SqlStories.FETCH| == 42;
    assert |SqlStories.INSERT| == 51;
    assert |SqlStories.DELETE| == 33;
  }

  /** The keys of some pairs, in order. */
  function Keys<V>(pairs: seq<(StatementKey, V)>): (r: seq<StatementKey>)
    ensures |r| == |pairs| && forall k :: 0 <= k < |pairs| ==> r[k] == pairs[k].0
  {
    seq(|pairs|, k requires 0 <= k < |pairs| => pairs[k].0)
  }

  /** No key is paired twice. */
  predicate DistinctKeys<V>(pairs: seq<(StatementKey, V)>) {
    forall i, j :: 0 <= i < j < |pairs| ==> pairs[i].0 != pairs[j].0
  }

  /** The texts of some queries, in order. */
  function Texts(queries: seq<(StatementKey, string)>): (r: seq<string>)
    ensures |r| == |queries| && forall k :: 0 <= k < |queries| ==> r[k] == queries[k].1
  {
    seq(|queries|, k requires 0 <= k < |queries| => queries[k].1)
  }

  /** The map that inserting the pairs in order produces. */
  function Inserted(pairs: seq<(StatementKey, Statement)>): map<StatementKey, Statement> {
    if pairs == [] then map[]
    else Inserted(pairs[..|pairs| - 1])[pairs[|pairs| - 1].0 := pairs[|pairs| - 1].1]
  }

  /** `prepare`: prepare one text and group the statement with its key. */
  method Prepare(conn: PgConn<StatementKey>, key: StatementKey, sql: string) returns (r: Result<(StatementKey, Statement), PgError>)
    modifies conn.inner
    ensures conn.inner.failures == old(conn.inner.failures)
    ensures conn.inner.prepared == old(conn.inner.prepared) + [sql]
    ensures |old(conn.inner.prepared)| in conn.inner.failures ==>
      r == Err(conn.inner.failures[|old(conn.inner.prepared)|])
    ensures |old(conn.inner.prepared)| !in conn.inner.failures ==>
      r == Ok((key, Statement(|old(conn.inner.prepared)|, sql)))
  {
    var statement := conn.inner.Prepare(sql);
    if statement.Err? {
      return Err(statement.error);
    }
    return Ok((key, statement.value));
  }

  /** `try_join_all` over `prepare`: every statement, each with its key, or
      the error of a failed round trip. The prepares are issued in order
      here and stop at the first failure. */
  method PrepareAll(conn: PgConn<StatementKey>, queries: seq<(StatementKey, string)>)
    returns (r: Result<seq<(StatementKey, Statement)>, PgError>)
    modifies conn.inner
    ensures conn.inner.failures == old(conn.inner.failures)
    ensures r.Ok? <==> AllSucceed(conn.inner.failures, |old(conn.inner.prepared)|, |queries|)
    ensures r.Err? ==> OneFailsWith(conn.inner.failures, |old(conn.inner.prepared)|, |queries|, r.error)
    ensures r.Ok? ==> conn.inner.prepared == old(conn.inner.prepared) + Texts(queries)
    ensures r.Ok? ==> Keys(r.value) == Keys(queries)
    ensures r.Ok? ==> forall k :: 0 <= k < |queries| ==> r.value[k].1 == Statement(|old(conn.inner.prepared)| + k, queries[k].1)
  {
    ghost var n := |conn.inner.prepared|;
    var statements: seq<(StatementKey, Statement)> := [];
    var i := 0;
    while i < |queries|
      invariant 0 <= i <= |queries|
      invariant |statements| == i
      invariant forall k :: 0 <= k < i ==> statements[k].0 == queries[k].0 && statements[k].1 == Statement(n + k, queries[k].1)
      invariant AllSucceed(conn.inner.failures, n, i)
      invariant conn.inner.prepared == old(conn.inner.prepared) + Texts(queries[..i])
      invariant |conn.inner.prepared| == n + i
      invariant conn.inner.failures == old(conn.inner.failures)
    {
      var (key, sql) := queries[i];
      var p := Prepare(conn, key, sql);
      if p.Err? {
        assert n + i in conn.inner.failures && conn.inner.failures[n + i] == p.error;
        return Err(p.error);
      }
      statements := statements + [p.value];
      assert Texts(queries[..i + 1]) == Texts(queries[..i]) + [sql];
      i := i + 1;
    }
    assert queries[..i] == queries;
    return Ok(statements);
  }

  /** The loop of `cache` that inserts each statement under its key. */
  method InsertAll(conn: PgConn<StatementKey>, statements: seq<(StatementKey, Statement)>)
    modifies conn
    ensures conn.psCache == old(conn.psCache) + Inserted(statements)
  {
    var j := 0;
    while j < |statements|
      invariant 0 <= j <= |statements|
      invariant conn.psCache == old(conn.psCache) + Inserted(statements[..j])
    {
      InsertedStep(old(conn.psCache), statements, j);
      conn.psCache := conn.psCache[statements[j].0 := statements[j].1];
      j := j + 1;
    }
    assert statements[..j] == statements;
  }

  /** `cache`: prepare the four statements; if any prepare fails return its
      error and cache nothing; otherwise cache each statement under its key. */
  method Cache(conn: PgConn<StatementKey>) returns (r: Result<(), PgError>)
    modifies conn, conn.inner
    ensures conn.inner.failures == old(conn.inner.failures)
    ensures r.Ok? <==> AllSucceed(conn.inner.failures, |old(conn.inner.prepared)|, |QUERIES|)
    ensures r.Err? ==> conn.psCache == old(conn.psCache)
    ensures r.Err? ==> OneFailsWith(conn.inner.failures, |old(conn.inner.prepared)|, |QUERIES|, r.error)
    ensures r.Ok? ==> conn.inner.prepared == old(conn.inner.prepared) + Texts(QUERIES)
    ensures r.Ok? ==> forall key: StatementKey ::
      key in conn.psCache && conn.psCache[key] == Statement(|old(conn.inner.prepared)| + KeyIndex(key), SqlOf(key))
  {
    ghost var n := |conn.inner.prepared|;
    var statements := PrepareAll(conn, QUERIES);
    if statements.Err? {
      return Err(statements.error);
    }
    InsertAll(conn, statements.value);
    QueriesDistinct();
    InsertedAll(statements.value);
    forall key: StatementKey
      ensures key in conn.psCache && conn.psCache[key] == Statement(n + KeyIndex(key), SqlOf(key))
    {
      var k := KeyIndex(key);
      assert statements.value[k].0 == key;
    }
    return Ok(());
  }

  /** Inserting one more pair into a cache updates that one key. */
  lemma InsertedStep(cache: map<StatementKey, Statement>, pairs: seq<(StatementKey, Statement)>, j: nat)
    requires j < |pairs|
    ensures cache + Inserted(pairs[..j + 1]) == (cache + Inserted(pairs[..j]))[pairs[j].0 := pairs[j].1]
  {
    assert pairs[..j + 1][..j] == pairs[..j];
  }

  /** When no key is paired twice, inserting the pairs maps each key to the
      statement paired with it. */
  lemma InsertedAll(pairs: seq<(StatementKey, Statement)>)
    requires DistinctKeys(pairs)
    ensures forall k :: 0 <= k < |pairs| ==> pairs[k].0 in Inserted(pairs) && Inserted(pairs)[pairs[k].0] == pairs[k].1
  {
    forall k | 0 <= k < |pairs| ensures pairs[k].0 in Inserted(pairs) && Inserted(pairs)[pairs[k].0] == pairs[k].1 {
      InsertedLast(pairs, k);
    }
  }

  /** A key inserted at position `k` and never again keeps that entry. */
  lemma {:induction false} InsertedLast(pairs: seq<(StatementKey, Statement)>, k: nat)
    requires k < |pairs|
    requires forall m :: k < m < |pairs| ==> pairs[m].0 != pairs[k].0
    ensures pairs[k].0 in Inserted(pairs) && Inserted(pairs)[pairs[k].0] == pairs[k].1
    decreases |pairs|
  {
    var n := |pairs| - 1;
    if k < n {
      InsertedLast(pairs[..n], k);
    }
  }
}

/** The connection wrapper of src/db/pool/connection.rs: a driver client
    paired with a cache of the statements prepared on it. The cache is
    generic in its key: `prepare_cache` keys it by SQL text, while `cache` in
    src/db/sql/statements.rs keys it by `StatementKey`. */
module Connection {
  import opened Base
  import opened Errors

  /** A prepared statement: the server's handle for it and the SQL text it
      was prepared from. */
  datatype Statement = Statement(handle: nat, sql: string)

  /** The driver's client (`tokio_postgres::Client`) as far as preparing
      statements goes. `prepared` lists, in order, every text sent to be
      prepared, and a statement's handle is its place in that list. The
      server's answer is not a function of the text alone: `failures` maps
      the round trips that fail, by their place in that list, to their
      error, whatever the cause (a text the server rejects, a dropped
      connection, a transient server error). */
  class Client {
    var failures: map<nat, PgError>
    var prepared: seq<string>

    constructor (failures: map<nat, PgError>)
      ensures this.failures == failures && prepared == []
    {
      this.failures := failures;
      prepared := [];
    }

    /** `Client::prepare`: one round trip to the server. */
    method Prepare(sql: string) returns (r: Result<Statement, PgError>)
      modifies this
      ensures failures == old(failures)
      ensures prepared == old(prepared) + [sql]
      ensures |old(prepared)| in failures ==> r == Err(failures[|old(prepared)|])
      ensures |old(prepared)| !in failures ==> r == Ok(Statement(|old(prepared)|, sql))
    {
      if |prepared| in failures {
        r := Err(failures[|prepared|]);
      } else {
        r := Ok(Statement(|prepared|, sql));
      }
      prepared := prepared + [sql];
    }
  }

  /** The `count` round trips from place `from` on all succeed. */
  predicate AllSucceed(failures: map<nat, PgError>, from: nat, count: nat) {
    forall j :: from <= j < from + count ==> j !in failures
  }

  /** `e` is the error of one of the `count` round trips from place `from`. */
  predicate OneFailsWith(failures: map<nat, PgError>, from: nat, count: nat, e: PgError) {
    exists j :: from <= j < from + count && j in failures && failures[j] == e
  }

  /** `PgConn`: the client and the statements cached for it. */
  class PgConn<K(==)> {
    const inner: Client
    var psCache: map<K, Statement>

    /** `PgConn::new`: nothing cached yet. */
    constructor (inner: Client)
      ensures this.inner == inner && psCache == map[]
    {
      this.inner := inner;
      psCache := map[];
    }
  }

  /** Every statement cached under a text was prepared from that text. */
  ghost predicate CachedByText(conn: PgConn<string>)
    reads conn
  {
    forall sql :: sql in conn.psCache ==> conn.psCache[sql].sql == sql
  }

  /** `PgConn::prepare_cache`: the cached statement when there is one;
      otherwise prepare the text and cache the statement under it. A failed
      prepare returns before the insert and leaves the cache as it was. */
  method PrepareCache(conn: PgConn<string>, sql: string) returns (r: Res<Statement>)
    modifies conn, conn.inner
    ensures conn.inner.failures == old(conn.inner.failures)
    ensures sql in old(conn.psCache) ==>
      r == Ok(old(conn.psCache)[sql]) && conn.psCache == old(conn.psCache) && conn.inner.prepared == old(conn.inner.prepared)
    ensures sql !in old(conn.psCache) ==> conn.inner.prepared == old(conn.inner.prepared) + [sql]
    ensures sql !in old(conn.psCache) && |old(conn.inner.prepared)| in conn.inner.failures ==>
      r == Err(FromForeign(conn.inner.failures[|old(conn.inner.prepared)|])) && conn.psCache == old(conn.psCache)
    ensures sql !in old(conn.psCache) && |old(conn.inner.prepared)| !in conn.inner.failures ==>
      r == Ok(Statement(|old(conn.inner.prepared)|, sql)) && conn.psCache == old(conn.psCache)[sql := r.value]
    ensures r.Ok? ==> sql in conn.psCache && conn.psCache[sql] == r.value
    ensures forall k :: k in old(conn.psCache) ==> k in conn.psCache && conn.psCache[k] == old(conn.psCache)[k]
    ensures old(CachedByText(conn)) ==> CachedByText(conn)
  {
    if sql in conn.psCache {
      return Ok(conn.psCache[sql]);
    }
    var p := conn.inner.Prepare(sql);
    if p.Err? {
      return Err(FromForeign(p.error));
    }
    conn.psCache := conn.psCache[sql := p.value];
    return Ok(p.value);
  }

  /** Asking twice for the same text: after a success the second answer is
      the same statement and the text is prepared at most once; after a
      failure nothing was cached, so the second request is a fresh round
      trip, which may succeed. */
  method PrepareCacheTwice(conn: PgConn<string>, sql: string) returns (r1: Res<Statement>, r2: Res<Statement>)
    modifies conn, conn.inner
    ensures conn.inner.failures == old(conn.inner.failures)
    ensures r1.Ok? ==> r2 == r1
    ensures r1.Ok? ==> |conn.inner.prepared| <= |old(conn.inner.prepared)| + 1
    ensures r1.Err? ==> conn.inner.prepared == old(conn.inner.prepared) + [sql, sql]
    ensures r1.Err? ==> (r2.Ok? <==> |old(conn.inner.prepared)| + 1 !in conn.inner.failures)
    ensures r1.Err? && r2.Ok? ==> r2.value == Statement(|old(conn.inner.prepared)| + 1, sql) && sql in conn.psCache && conn.psCache[sql] == r2.value
  {
    r1 := PrepareCache(conn, sql);
    r2 := PrepareCache(conn, sql);
  }
}

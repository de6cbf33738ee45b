/**
 * The HTTP handler: method dispatch, the clamped configuration, the record
 * loop that fills the two maps, and the single module-level cache slot.
 *
 * The database query is an input: either it fails with a message or it
 * yields rows of an optional node `n` and an optional relationship `r`.
 * `Handle` also returns the limits it would send with the query, or `None`
 * when it does not touch the database.
 */
module Handler {
  import opened Wrappers
  import opened Js
  import opened Vis
  import opened JsMap

  // ---------------------------------------------------------------------
  // Configuration

  /** `CACHE_SECONDS`, `NODE_LIMIT` and `ROW_LIMIT`, each possibly unset. */
  datatype Config = Config(cacheSeconds: Option<int>, nodeLimit: Option<int>, rowLimit: Option<int>)

  const DefaultCacheSeconds := 300
  const MinCacheSeconds := 30
  const DefaultNodeLimit := 200
  const MaxNodeLimit := 300
  const DefaultRowLimit := 1200
  const MaxRowLimit := 2000

  /** `Math.max(CACHE_SECONDS || 300, 30)`. */
  function CacheSeconds(cfg: Config): (ttl: int)
    ensures ttl >= MinCacheSeconds
    ensures cfg.cacheSeconds.None? ==> ttl == DefaultCacheSeconds
    ensures cfg.cacheSeconds.Some? && cfg.cacheSeconds.value >= MinCacheSeconds ==> ttl == cfg.cacheSeconds.value
    ensures cfg.cacheSeconds.Some? && cfg.cacheSeconds.value < MinCacheSeconds ==> ttl == MinCacheSeconds
  {
    var requested := if cfg.cacheSeconds.Some? then cfg.cacheSeconds.value else DefaultCacheSeconds;
    if requested < MinCacheSeconds then MinCacheSeconds else requested
  }

  /** `Math.min(NODE_LIMIT || 200, 300)`. */
  function NodeLimit(cfg: Config): (limit: int)
    ensures limit <= MaxNodeLimit
    ensures cfg.nodeLimit.None? ==> limit == DefaultNodeLimit
    ensures cfg.nodeLimit.Some? && cfg.nodeLimit.value <= MaxNodeLimit ==> limit == cfg.nodeLimit.value
    ensures cfg.nodeLimit.Some? && cfg.nodeLimit.value > MaxNodeLimit ==> limit == MaxNodeLimit
  {
    var requested := if cfg.nodeLimit.Some? then cfg.nodeLimit.value else DefaultNodeLimit;
    if requested > MaxNodeLimit then MaxNodeLimit else requested
  }

  /** `Math.min(ROW_LIMIT || 1200, 2000)`. */
  function RowLimit(cfg: Config): (limit: int)
    ensures limit <= MaxRowLimit
    ensures cfg.rowLimit.None? ==> limit == DefaultRowLimit
    ensures cfg.rowLimit.Some? && cfg.rowLimit.value <= MaxRowLimit ==> limit == cfg.rowLimit.value
    ensures cfg.rowLimit.Some? && cfg.rowLimit.value > MaxRowLimit ==> limit == MaxRowLimit
  {
    var requested := if cfg.rowLimit.Some? then cfg.rowLimit.value else DefaultRowLimit;
    if requested > MaxRowLimit then MaxRowLimit else requested
  }

  datatype Limits = Limits(nodeLimit: int, rowLimit: int)

  function QueryLimits(cfg: Config): Limits
  {
    Limits(NodeLimit(cfg), RowLimit(cfg))
  }

  // ---------------------------------------------------------------------
  // The record loop

  datatype Row = Row(n: Option<Node>, r: Option<Rel>)

  datatype QueryResult = QueryFailed(message: string) | Records(rows: seq<Row>)

  /** `n?.identity`: present with a truthy (non-zero) identity. */
  predicate NodePresent(n: Option<Node>)
    ensures NodePresent(n) <==> n.Some? && Truthy(Num(n.value.identity))
  {
    n.Some? && n.value.identity != 0
  }

  /** `r?.identity`. */
  predicate RelPresent(r: Option<Rel>)
    ensures RelPresent(r) <==> r.Some? && Truthy(Num(r.value.identity))
  {
    r.Some? && r.value.identity != 0
  }

  /** The `nodes.set(...)` call one row causes, if any. */
  function NodeWrite(row: Row): seq<(string, VisNode)>
  {
    if NodePresent(row.n) then [(IntToString(row.n.value.identity), NodeToVis(row.n.value))] else []
  }

  /** The `edges.set(...)` call one row causes, if any. */
  function EdgeWrite(row: Row): seq<(string, Edge)>
  {
    if RelPresent(row.r) then [(IntToString(row.r.value.identity), RelToVis(row.r.value))] else []
  }

  /** The `map.set(...)` calls that `write` makes for each row, in row order. */
  function Writes<V>(rows: seq<Row>, write: Row -> seq<(string, V)>): seq<(string, V)>
  {
    if rows == [] then [] else write(rows[0]) + Writes(rows[1..], write)
  }

  /** The `nodes.set(...)` calls the rows cause, in order. */
  function NodeWrites(rows: seq<Row>): seq<(string, VisNode)>
  {
    Writes(rows, NodeWrite)
  }

  /** The `edges.set(...)` calls the rows cause, in order. */
  function EdgeWrites(rows: seq<Row>): seq<(string, Edge)>
  {
    Writes(rows, EdgeWrite)
  }

  lemma {:induction false} WritesAppend<V>(a: seq<Row>, b: seq<Row>, write: Row -> seq<(string, V)>)
    ensures Writes(a + b, write) == Writes(a, write) + Writes(b, write)
  {
    if a == [] {
      assert a + b == b;
    } else {
      WritesAppend(a[1..], b, write);
      assert (a + b)[0] == a[0];
      assert (a + b)[1..] == a[1..] + b;
      assert Writes(a + b, write) == write(a[0]) + Writes(a[1..] + b, write);
    }
  }

  lemma WritesSnoc<V>(rows: seq<Row>, i: nat, write: Row -> seq<(string, V)>)
    requires i < |rows|
    ensures Writes(rows[..i + 1], write) == Writes(rows[..i], write) + write(rows[i])
  {
    assert rows[..i + 1] == rows[..i] + [rows[i]];
    WritesAppend(rows[..i], [rows[i]], write);
    assert [rows[i]][1..] == [];
  }

  lemma WritesStep(rows: seq<Row>, i: nat)
    requires i < |rows|
    ensures NodeWrites(rows[..i + 1]) == NodeWrites(rows[..i]) + NodeWrite(rows[i])
    ensures EdgeWrites(rows[..i + 1]) == EdgeWrites(rows[..i]) + EdgeWrite(rows[i])
  {
    WritesSnoc(rows, i, NodeWrite);
    WritesSnoc(rows, i, EdgeWrite);
  }

  /** The loop over `result.records`, followed by `Array.from(...values())`. */
  method CollectRows(rows: seq<Row>) returns (nodes: seq<VisNode>, edges: seq<Edge>)
    ensures nodes == Dedup(NodeWrites(rows))
    ensures edges == Dedup(EdgeWrites(rows))
  {
    var nodeMap := new OrderedMap<VisNode>();
    var edgeMap := new OrderedMap<Edge>();
    for i := 0 to |rows|
      invariant nodeMap.Valid() && edgeMap.Valid()
      invariant nodeMap.writes == NodeWrites(rows[..i])
      invariant edgeMap.writes == EdgeWrites(rows[..i])
    {
      WritesStep(rows, i);
      var row := rows[i];
      if NodePresent(row.n) {
        nodeMap.Set(IntToString(row.n.value.identity), NodeToVis(row.n.value));
      }
      if RelPresent(row.r) {
        edgeMap.Set(IntToString(row.r.value.identity), RelToVis(row.r.value));
      }
    }
    assert rows[..|rows|] == rows;
    nodes := nodeMap.ValueList();
    edges := edgeMap.ValueList();
  }

  // ---------------------------------------------------------------------
  // Properties of the record loop

  lemma {:induction false} SilentRowContributesNothing<V>(before: seq<Row>, row: Row, after: seq<Row>,
                                                        write: Row -> seq<(string, V)>)
    requires write(row) == []
    ensures Writes(before + [row] + after, write) == Writes(before + after, write)
  {
    if before == [] {
      assert before + [row] + after == [row] + after;
      assert ([row] + after)[1..] == after;
      assert before + after == after;
    } else {
      SilentRowContributesNothing(before[1..], row, after, write);
      assert (before + [row] + after)[1..] == before[1..] + [row] + after;
      assert (before + after)[1..] == before[1..] + after;
    }
  }

  /**
   * A row whose node is absent or has the falsy identity 0 adds no node, and
   * one whose relationship is absent or has identity 0 adds no edge,
   * wherever the row stands among the rows.
   */
  lemma SkippedRowContributesNothing(before: seq<Row>, row: Row, after: seq<Row>)
    ensures !NodePresent(row.n) ==> NodeWrites(before + [row] + after) == NodeWrites(before + after)
    ensures !RelPresent(row.r) ==> EdgeWrites(before + [row] + after) == EdgeWrites(before + after)
  {
    if !NodePresent(row.n) {
      SilentRowContributesNothing(before, row, after, NodeWrite);
    }
    if !RelPresent(row.r) {
      SilentRowContributesNothing(before, row, after, EdgeWrite);
    }
  }

  // The two maps follow one pattern: a row contributes at most one `set`,
  // keyed by the string form of an identity. The lemmas below are stated once
  // for any such `write` and its `id` selector, then applied to both maps.

  /** The identity a row's node contributes, if it is present. */
  function NodeId(row: Row): Option<int>
  {
    if NodePresent(row.n) then Some(row.n.value.identity) else None
  }

  /** The identity a row's relationship contributes, if it is present. */
  function RelId(row: Row): Option<int>
  {
    if RelPresent(row.r) then Some(row.r.value.identity) else None
  }

  /** `write` makes one `set`, keyed by the identity `id` picks, exactly when `id` picks one. */
  ghost predicate KeyedBy<V>(write: Row -> seq<(string, V)>, id: Row -> Option<int>)
  {
    forall row ::
      && (id(row).None? ==> write(row) == [])
      && (id(row).Some? ==> |write(row)| == 1 && write(row)[0].0 == IntToString(id(row).value))
  }

  lemma NodeWriteKeyed()
    ensures KeyedBy(NodeWrite, NodeId)
  {
  }

  lemma EdgeWriteKeyed()
    ensures KeyedBy(EdgeWrite, RelId)
  {
  }

  /** The identities the rows contribute. */
  function Ids(rows: seq<Row>, id: Row -> Option<int>): set<int>
  {
    if rows == [] then {}
    else (if id(rows[0]).Some? then {id(rows[0]).value} else {}) + Ids(rows[1..], id)
  }

  /** The keys of the rows' `set` calls, in order. */
  function Keys(rows: seq<Row>, id: Row -> Option<int>): seq<string>
  {
    if rows == [] then []
    else (if id(rows[0]).Some? then [IntToString(id(rows[0]).value)] else []) + Keys(rows[1..], id)
  }

  /** The identities of the rows' present nodes. */
  function NodeIds(rows: seq<Row>): set<int>
  {
    Ids(rows, NodeId)
  }

  /** The identities of the rows' present relationships. */
  function RelIds(rows: seq<Row>): set<int>
  {
    Ids(rows, RelId)
  }

  lemma {:induction false} KeysOfWrites<V>(rows: seq<Row>, write: Row -> seq<(string, V)>, id: Row -> Option<int>)
    requires KeyedBy(write, id)
    ensures KeysOf(Writes(rows, write)) == Keys(rows, id)
  {
    if rows != [] {
      KeysOfWrites(rows[1..], write, id);
      KeysOfAppend(write(rows[0]), Writes(rows[1..], write));
      assert KeysOf(write(rows[0])) == if id(rows[0]).Some? then [IntToString(id(rows[0]).value)] else [];
    }
  }

  lemma {:induction false} KeysAreIdentities(rows: seq<Row>, id: Row -> Option<int>, x: int)
    ensures IntToString(x) in Keys(rows, id) <==> x in Ids(rows, id)
  {
    if rows != [] {
      KeysAreIdentities(rows[1..], id, x);
      if id(rows[0]).Some? {
        IntToStringInjective(x, id(rows[0]).value);
      }
    }
  }

  lemma {:induction false} KeyCount(rows: seq<Row>, id: Row -> Option<int>)
    ensures |set k | k in Keys(rows, id)| == |Ids(rows, id)|
  {
    if rows != [] {
      var rest := rows[1..];
      KeyCount(rest, id);
      var after := Keys(rest, id);
      if id(rows[0]).Some? {
        var x := id(rows[0]).value;
        KeysAreIdentities(rest, id, x);
        assert Keys(rows, id) == [IntToString(x)] + after;
        assert Ids(rows, id) == {x} + Ids(rest, id);
        ElementsOfCons(IntToString(x), after);
        AddOneEach(IntToString(x), (set k | k in after), x, Ids(rest, id));
      } else {
        assert Keys(rows, id) == after;
        assert Ids(rows, id) == Ids(rest, id);
      }
    }
  }

  lemma ElementsOfCons(key: string, after: seq<string>)
    ensures (set k | k in [key] + after) == {key} + (set k | k in after)
  {
  }

  lemma AddOneEach(key: string, keys: set<string>, x: int, ids: set<int>)
    requires key in keys <==> x in ids
    requires |keys| == |ids|
    ensures |{key} + keys| == |{x} + ids|
  {
    if x in ids {
      assert {key} + keys == keys && {x} + ids == ids;
    }
  }

  /** The value list holds exactly one entry per distinct identity the rows contribute. */
  lemma OnePerIdentity<V>(rows: seq<Row>, write: Row -> seq<(string, V)>, id: Row -> Option<int>)
    requires KeyedBy(write, id)
    ensures |Dedup(Writes(rows, write))| == |Ids(rows, id)|
  {
    DedupOnePerKey(Writes(rows, write));
    KeysOfWrites(rows, write, id);
    KeyCount(rows, id);
  }

  /** The node list holds exactly one record per distinct identity among the rows' present nodes. */
  lemma NodeListOnePerIdentity(rows: seq<Row>)
    ensures |Dedup(NodeWrites(rows))| == |NodeIds(rows)|
  {
    NodeWriteKeyed();
    OnePerIdentity(rows, NodeWrite, NodeId);
  }

  /** The edge list holds exactly one record per distinct identity among the rows' present relationships. */
  lemma EdgeListOnePerIdentity(rows: seq<Row>)
    ensures |Dedup(EdgeWrites(rows))| == |RelIds(rows)|
  {
    EdgeWriteKeyed();
    OnePerIdentity(rows, EdgeWrite, RelId);
  }

  /** An identity is contributed exactly when some row contributes it. */
  lemma {:induction false} IdsOfRows(rows: seq<Row>, id: Row -> Option<int>, x: int)
    ensures x in Ids(rows, id) <==> exists i :: 0 <= i < |rows| && id(rows[i]) == Some(x)
  {
    if rows != [] {
      IdsOfRows(rows[1..], id, x);
      if x in Ids(rows[1..], id) {
        var i :| 0 <= i < |rows[1..]| && id(rows[1..][i]) == Some(x);
        assert rows[i + 1] == rows[1..][i];
      }
      if exists i :: 0 <= i < |rows| && id(rows[i]) == Some(x) {
        var i :| 0 <= i < |rows| && id(rows[i]) == Some(x);
        if i > 0 {
          assert rows[1..][i - 1] == rows[i];
        }
      }
    }
  }

  /** Row `i` is the last row contributing identity `x`. */
  ghost predicate LastRow(rows: seq<Row>, id: Row -> Option<int>, x: int, i: int)
  {
    && 0 <= i < |rows| && id(rows[i]) == Some(x)
    && forall j :: i < j < |rows| ==> id(rows[j]) != Some(x)
  }

  /** The value a map holds for identity `x` is the one the last row contributing `x` wrote. */
  lemma {:induction false} LastRowWins<V>(rows: seq<Row>, write: Row -> seq<(string, V)>, id: Row -> Option<int>, x: int)
    requires KeyedBy(write, id)
    requires x in Ids(rows, id)
    ensures IntToString(x) in KeysOf(Writes(rows, write))
    ensures exists i ::
      LastRow(rows, id, x, i) && LastValue(Writes(rows, write), IntToString(x)) == write(rows[i])[0].1
  {
    var rest := rows[1..];
    var key := IntToString(x);
    KeysOfWrites(rows, write, id);
    KeysOfWrites(rest, write, id);
    KeysAreIdentities(rows, id, x);
    KeysAreIdentities(rest, id, x);
    assert Writes(rows, write) == write(rows[0]) + Writes(rest, write);
    if x in Ids(rest, id) {
      LastRowWins(rest, write, id, x);
      var i :| LastRow(rest, id, x, i) && LastValue(Writes(rest, write), key) == write(rest[i])[0].1;
      LastValueOfSuffix(write(rows[0]), Writes(rest, write), key);
      assert rows[i + 1] == rest[i];
      forall j | i + 1 < j < |rows|
        ensures id(rows[j]) != Some(x)
      {
        assert rows[j] == rest[j - 1];
      }
      assert LastRow(rows, id, x, i + 1);
    } else {
      IdsOfRows(rest, id, x);
      forall j | 0 < j < |rows|
        ensures id(rows[j]) != Some(x)
      {
        assert rows[j] == rest[j - 1];
      }
      assert LastRow(rows, id, x, 0);
      SoleFirstWriteKept(write(rows[0]), Writes(rest, write), key);
    }
  }

  /** Each `set` call stores what some row wrote. */
  lemma {:induction false} WriteFromRow<V>(rows: seq<Row>, write: Row -> seq<(string, V)>, j: nat)
    requires j < |Writes(rows, write)|
    ensures exists i :: 0 <= i < |rows| && Writes(rows, write)[j] in write(rows[i])
  {
    var rest := rows[1..];
    assert Writes(rows, write) == write(rows[0]) + Writes(rest, write);
    if j < |write(rows[0])| {
      assert Writes(rows, write)[j] == write(rows[0])[j];
    } else {
      var j' := j - |write(rows[0])|;
      WriteFromRow(rest, write, j');
      var i :| 0 <= i < |rest| && Writes(rest, write)[j'] in write(rest[i]);
      assert rows[i + 1] == rest[i];
    }
  }

  /** Every entry of the value list is what some row wrote. */
  lemma ListFromRows<V>(rows: seq<Row>, write: Row -> seq<(string, V)>, k: nat)
    requires k < |Dedup(Writes(rows, write))|
    ensures exists i, w :: 0 <= i < |rows| && w in write(rows[i]) && Dedup(Writes(rows, write))[k] == w.1
  {
    ListedWasWritten(Writes(rows, write), k);
    var j :| 0 <= j < |Writes(rows, write)| && Writes(rows, write)[j].1 == Dedup(Writes(rows, write))[k];
    WriteFromRow(rows, write, j);
  }

  /**
   * Every identity among the rows' present nodes has its record in the node
   * list, and that record is the one built from the last row carrying it.
   */
  lemma NodeListHasLastRecord(rows: seq<Row>, x: int)
    requires x in NodeIds(rows)
    ensures exists i :: LastRow(rows, NodeId, x, i) && NodeToVis(rows[i].n.value) in Dedup(NodeWrites(rows))
  {
    NodeWriteKeyed();
    LastRowWins(rows, NodeWrite, NodeId, x);
    LastValueListed(NodeWrites(rows), IntToString(x));
  }

  /**
   * Every identity among the rows' present relationships has its record in
   * the edge list, and that record is the one built from the last row carrying it.
   */
  lemma EdgeListHasLastRecord(rows: seq<Row>, x: int)
    requires x in RelIds(rows)
    ensures exists i :: LastRow(rows, RelId, x, i) && RelToVis(rows[i].r.value) in Dedup(EdgeWrites(rows))
  {
    EdgeWriteKeyed();
    LastRowWins(rows, EdgeWrite, RelId, x);
    LastValueListed(EdgeWrites(rows), IntToString(x));
  }

  /** Every record in the node list was built from some row's present node. */
  lemma NodeListFromRows(rows: seq<Row>, k: nat)
    requires k < |Dedup(NodeWrites(rows))|
    ensures exists i :: 0 <= i < |rows| && NodePresent(rows[i].n) && Dedup(NodeWrites(rows))[k] == NodeToVis(rows[i].n.value)
  {
    ListFromRows(rows, NodeWrite, k);
  }

  /** Every record in the edge list was built from some row's present relationship. */
  lemma EdgeListFromRows(rows: seq<Row>, k: nat)
    requires k < |Dedup(EdgeWrites(rows))|
    ensures exists i :: 0 <= i < |rows| && RelPresent(rows[i].r) && Dedup(EdgeWrites(rows))[k] == RelToVis(rows[i].r.value)
  {
    ListFromRows(rows, EdgeWrite, k);
  }

  /** No two records of the edge list share an `id`: each edge's `id` is the key it is stored under. */
  lemma EdgeIdsDistinct(rows: seq<Row>)
    ensures forall i, j :: 0 <= i < j < |Dedup(EdgeWrites(rows))| ==>
      Dedup(EdgeWrites(rows))[i].id != Dedup(EdgeWrites(rows))[j].id
  {
    var writes := EdgeWrites(rows);
    forall j | 0 <= j < |writes|
      ensures writes[j].1.id == writes[j].0
    {
      WriteFromRow(rows, EdgeWrite, j);
    }
    DedupKeyedValues(writes, (e: Edge) => e.id);
  }

  /** Receiving every row twice yields the same node and edge lists. */
  lemma {:induction false} RepeatedRowsAreIdempotent(rows: seq<Row>)
    ensures Dedup(NodeWrites(rows + rows)) == Dedup(NodeWrites(rows))
    ensures Dedup(EdgeWrites(rows + rows)) == Dedup(EdgeWrites(rows))
  {
    WritesAppend(rows, rows, NodeWrite);
    WritesAppend(rows, rows, EdgeWrite);
    DedupIdempotent(NodeWrites(rows));
    DedupIdempotent(EdgeWrites(rows));
  }

  // ---------------------------------------------------------------------
  // Responses and the cache

  datatype Payload = Payload(generatedAt: string, limits: Limits, nodes: seq<VisNode>, edges: seq<Edge>)

  /** The payload built from a successful query. */
  function Snapshot(rows: seq<Row>, limits: Limits, generatedAt: string): Payload
  {
    Payload(generatedAt, limits, Dedup(NodeWrites(rows)), Dedup(EdgeWrites(rows)))
  }

  datatype Body = NoContent | Text(text: string) | Json(payload: Payload) | ErrorJson(message: string)

  /** Status, the `max-age` of a `Cache-Control` header when there is one, and the body. */
  datatype Response = Response(status: int, maxAge: Option<int>, body: Body)

  datatype CacheEntry = CacheEntry(ts: int, payload: Option<Payload>)

  /** `cache.payload && now - cache.ts < CACHE_SECONDS * 1000`. */
  predicate Fresh(c: CacheEntry, now: int, ttl: int)
    ensures c.payload.None? ==> !Fresh(c, now, ttl)
    ensures c.payload.Some? && ttl > 0 && now <= c.ts ==> Fresh(c, now, ttl)
  {
    c.payload.Some? && now - c.ts < ttl * 1000
  }

  /** The handler with its module-level cache slot. */
  class GraphHandler {
    var cache: CacheEntry

    /** `let cache = { ts: 0, payload: null }` on a cold start. */
    constructor ()
      ensures cache == CacheEntry(0, None)
    {
      cache := CacheEntry(0, None);
    }

    /**
     * One invocation. `db` is what the query returns if the handler runs it,
     * `now` the clock reading taken before the cache check and `generatedAt`
     * the timestamp string written into a fresh payload.
     */
    method Handle(httpMethod: string, now: int, cfg: Config, db: QueryResult, generatedAt: string)
      returns (resp: Response, queried: Option<Limits>)
      modifies this
      ensures httpMethod == "OPTIONS" ==>
        resp == Response(204, None, NoContent) && queried == None && cache == old(cache)
      ensures httpMethod != "OPTIONS" && httpMethod != "GET" ==>
        resp == Response(405, None, Text("Method Not Allowed")) && queried == None && cache == old(cache)
      ensures httpMethod == "GET" && Fresh(old(cache), now, CacheSeconds(cfg)) ==>
        && resp == Response(200, Some(CacheSeconds(cfg)), Json(old(cache).payload.value))
        && queried == None
        && cache == old(cache)
      ensures httpMethod == "GET" && !Fresh(old(cache), now, CacheSeconds(cfg)) ==>
        queried == Some(QueryLimits(cfg))
      ensures httpMethod == "GET" && !Fresh(old(cache), now, CacheSeconds(cfg)) && db.QueryFailed? ==>
        resp == Response(500, None, ErrorJson(db.message)) && cache == old(cache)
      ensures httpMethod == "GET" && !Fresh(old(cache), now, CacheSeconds(cfg)) && db.Records? ==>
        && resp == Response(200, Some(CacheSeconds(cfg)), Json(Snapshot(db.rows, QueryLimits(cfg), generatedAt)))
        && cache == CacheEntry(now, Some(Snapshot(db.rows, QueryLimits(cfg), generatedAt)))
    {
      if httpMethod == "OPTIONS" {
        return Response(204, None, NoContent), None;
      }
      if httpMethod != "GET" {
        return Response(405, None, Text("Method Not Allowed")), None;
      }
      var ttl := CacheSeconds(cfg);
      if cache.payload.Some? && now - cache.ts < ttl * 1000 {
        return Response(200, Some(ttl), Json(cache.payload.value)), None;
      }
      var limits := Limits(NodeLimit(cfg), RowLimit(cfg));
      queried := Some(limits);
      match db
      case QueryFailed(message) =>
        resp := Response(500, None, ErrorJson(message));
      case Records(rows) =>
        var nodes, edges := CollectRows(rows);
        var payload := Payload(generatedAt, limits, nodes, edges);
        cache := CacheEntry(now, Some(payload));
        resp := Response(200, Some(ttl), Json(payload));
    }
  }

  /**
   * From a cold start, a second GET within the TTL of a first, successful
   * one gets the very same response and sends no query.
   */
  method RepeatWithinTtl(cfg: Config, now1: int, now2: int, rows: seq<Row>, db2: QueryResult, at1: string, at2: string)
    returns (first: Response, second: Response, secondQuery: Option<Limits>)
    requires now2 - now1 < CacheSeconds(cfg) * 1000
    ensures first == Response(200, Some(CacheSeconds(cfg)), Json(Snapshot(rows, QueryLimits(cfg), at1)))
    ensures second == first && secondQuery == None
  {
    var h := new GraphHandler();
    var q;
    first, q := h.Handle("GET", now1, cfg, Records(rows), at1);
    second, secondQuery := h.Handle("GET", now2, cfg, db2, at2);
  }
}

# Graph endpoint model

A Dafny model of the serverless function behind the graph view
(`netlify/functions/graph.js`). The function answers an HTTP request with
the nodes and relationships of a Neo4j database, reshaped for a
graph-visualisation front end, and keeps the last payload in a module-level
cache slot for a configurable number of seconds.

The model follows the function's structure:

- `Js` (`js.dfy`): the bits of JavaScript the function relies on.
  - Truthiness of property values.
  - `String(...)` of integers and of property values.
  - `split(' ')` and `join(sep)`.
  - The decimal rendering of an identity, proved injective, so two identities give the same map key exactly when they are equal.
- `LabelWrap` (`label_wrap.dfy`): the greedy word-wrap of labels longer than 30 characters.
  - The loop is a `method` (`WrapLabel`), proved equal to a reference function built from one loop step (`Step`, `Fill`, `Wrap`).
  - Lemmas about the reference state the promises about the lines.
- `Vis` (`vis.dfy`): `nodeToVis` and `relToVis`.
  - A visual node is a map from keys to values. The computed `id`, `label` and `group` come first, and the node's properties are spread over them.
- `JsMap` (`js_map.dfy`): the JavaScript `Map` the handler uses to de-duplicate.
  - `OrderedMap` is a class whose `Set` updates a key list and a value map in place.
  - `Dedup` is the reference outcome of a list of `set` calls: one value per key, keys in order of first insertion, each holding the last value written.
- `Handler` (`handler.dfy`): the request handler.
  - The clamped settings.
  - The record loop (`CollectRows`, a `method` over two `OrderedMap`s).
  - `GraphHandler`, a class whose `cache` field is the module-level `{ts, payload}` slot, and whose `Handle` method is one invocation.

The database, the clock and the timestamp string are inputs of `Handle`:
- `db` is what the query returns: a failure message or the list of records.
- `now` is the value of `Date.now()`.
- `generatedAt` is the ISO string put in a new payload.

`Handle` also returns the limits it would send with the query, or `None` when it does not query the database.

The code tests `n?.identity` and `r?.identity` for truthiness (graph.js:141-142), so a node or relationship whose identity is 0 is skipped. `NodePresent` and `RelPresent` model that test, and `SkippedRowContributesNothing` states its effect.

## Model

| member | source | states |
|---|---|---|
| Js.Truthy | netlify/functions/graph.js:36-37 | a value is falsy exactly when it is the empty string, 0 or `false`; every array is truthy |
| Js.Join | netlify/functions/graph.js:54 | `join` of no parts is empty, of one part is that part, and otherwise starts with the first part |
| Js.Split | netlify/functions/graph.js:41 | `split(' ')` yields at least one piece and no piece contains a space |
| Js.JoinSplit | netlify/functions/graph.js:41 | joining the pieces of `split(' ')` with single spaces gives the string back |
| Js.SplitJoin | netlify/functions/graph.js:41 | splitting a space-joined list of space-free words gives the words back |
| Js.SplitAtSpace | netlify/functions/graph.js:41 | splitting `a + " " + b` is splitting `a` followed by splitting `b` |
| Js.JoinSnoc | netlify/functions/graph.js:54 | `join` of a list with one more part adds the separator and that part at the end |
| Js.NatToString | netlify/functions/graph.js:32 | the decimal rendering of a non-negative identity is non-empty, starts with a digit and has one character exactly when the number is below 10 |
| Js.IntToString | netlify/functions/graph.js:32 | `String(identity)` is non-empty and starts with a minus sign exactly when the identity is negative |
| Js.ToJsString | netlify/functions/graph.js:57 | `String(label)` leaves a string as is, renders an integer in decimal, an empty array as the empty string, and a one-element array as its element |
| Js.IntToStringInjective | netlify/functions/graph.js:141-142 | two identities render to the same string key if and only if they are equal |
| LabelWrap.Step | netlify/functions/graph.js:46-51 | one loop iteration either keeps the finished lines, growing the current line only while it fits in 30 characters (or starting it with the word), or closes a non-empty current line and starts the next with the word |
| LabelWrap.Fill | netlify/functions/graph.js:45-52 | after the loop, the finished lines plus a non-empty current line number at most the words |
| LabelWrap.Wrap | netlify/functions/graph.js:53 | keeping the last line only when non-empty, there are never more lines than words |
| LabelWrap.WrapLabel | netlify/functions/graph.js:40-55 | the wrapping loop returns a label of at most 30 characters unchanged, and otherwise the greedy lines of its space-separated words joined by newlines |
| LabelWrap.WrapHasNoEmptyLine | netlify/functions/graph.js:45-53 | no wrapped line is empty |
| LabelWrap.WrapLongLineIsOneWord | netlify/functions/graph.js:45-53 | a wrapped line longer than 30 characters is one of the words, so a word is never split |
| LabelWrap.WrapKeepsWords | netlify/functions/graph.js:45-54 | when no word is empty, the lines joined with spaces are the words joined with spaces: no word is lost, duplicated or reordered |
| LabelWrap.WrapIsGreedy | netlify/functions/graph.js:46-51 | every line break is forced: the next line's first word would not fit, after a space, within 30 characters |
| LabelWrap.WrappedLabelLines | netlify/functions/graph.js:40-55 | for a label over 30 characters: the result is the lines joined by newlines; no line is empty; an over-long line has no space; each break is forced; with single spacing the lines re-joined by spaces give the label back |
| Vis.Group | netlify/functions/graph.js:34-36 | the group is never empty; it is the first label when that is a non-empty string, and otherwise "Node" |
| Vis.RawLabel | netlify/functions/graph.js:35-37 | the label candidate is always truthy and is the first truthy of `title`, `name` and `id`, falling back to the group |
| Vis.DisplayLabel | netlify/functions/graph.js:40-57 | a non-string candidate is only converted with `String`; a string candidate is wrapped only when longer than 30 characters |
| Vis.NodeToVis | netlify/functions/graph.js:30-58 | the record's keys are the property keys plus `id`, `label` and `group`; every property is kept as is; each computed field survives only when no property of that name replaces it |
| Vis.RelToVis | netlify/functions/graph.js:60-73 | the edge's `id`, `from` and `to` are the string forms of the identity, start and end, and its `type` and `label` are both the relationship type |
| Vis.RelToVisLossless | netlify/functions/graph.js:60-73 | two relationships give the same edge record if and only if they have the same identity, endpoints and type |
| Vis.EdgeEndsMatchNodeId | netlify/functions/graph.js:32-64 | an edge's `from` (`to`) equals a node record's `id` exactly when the relationship starts (ends) at that node, when no `id` property replaces the computed one |
| JsMap.FirstIndex | netlify/functions/graph.js:141-142 | the first position of a key holds that key and no earlier position does |
| JsMap.FirstOrder | netlify/functions/graph.js:141-148 | the map's key list has no duplicates and holds exactly the keys written |
| JsMap.FirstOrderFollowsFirstAppearance | netlify/functions/graph.js:148 | `values()` lists keys in strictly increasing order of first insertion |
| JsMap.LastIndex | netlify/functions/graph.js:141-142 | the write that decides a key's value is a write to that key and no later write touches the key |
| JsMap.Dedup | netlify/functions/graph.js:141-148 | `Array.from(map.values())` after the `set` calls on a fresh map has no more entries than writes, and at least one when anything was written |
| JsMap.FirstOrderLength | netlify/functions/graph.js:148 | the key list never has more entries than writes, and is non-empty when something was written |
| JsMap.DedupKeyedValues | netlify/functions/graph.js:141-148 | when each value carries the key it is stored under, the listed values carry the keys in first-insertion order and no two carry the same key |
| JsMap.DedupOnePerKey | netlify/functions/graph.js:141-148 | the value list has one entry per distinct key written |
| JsMap.LastValueListed | netlify/functions/graph.js:141-148 | the value last written to each key appears in the value list |
| JsMap.ListedWasWritten | netlify/functions/graph.js:141-148 | every entry of the value list is a value that some `set` call wrote |
| JsMap.DedupIdempotent | netlify/functions/graph.js:141-148 | repeating the whole sequence of `set` calls leaves the value list unchanged |
| JsMap.SoleFirstWriteKept | netlify/functions/graph.js:141-142 | a key written once, first, and never again keeps that value |
| JsMap.SetKeysStep | netlify/functions/graph.js:141-142 | one more `set` appends its key to the key list exactly when the key is new |
| JsMap.SetValuesStep | netlify/functions/graph.js:141-142 | after one more `set`, every stored value is the last one written to its key |
| JsMap.SetKeepsModel | netlify/functions/graph.js:141-142 | one more `set` keeps the key list and value map equal to what the extended list of writes produces |
| JsMap.OrderedMap.constructor | netlify/functions/graph.js:135-136 | a new map is empty and has seen no writes |
| JsMap.OrderedMap.Set | netlify/functions/graph.js:141-142 | `set(k, v)` appends `k` to the key list only when it is new and stores `v` under `k`, keeping the map equal to its writes' outcome |
| JsMap.OrderedMap.ValueList | netlify/functions/graph.js:148-149 | `Array.from(map.values())` is the reference outcome of all writes so far |
| Handler.CacheSeconds | netlify/functions/graph.js:93 | the time-to-live is 300 when unset, the setting when at least 30, and 30 otherwise |
| Handler.NodeLimit | netlify/functions/graph.js:111 | the node limit is 200 when unset, the setting when at most 300, and 300 otherwise |
| Handler.RowLimit | netlify/functions/graph.js:112 | the row limit is 1200 when unset, the setting when at most 2000, and 2000 otherwise |
| Handler.CollectRows | netlify/functions/graph.js:135-149 | the record loop produces exactly the de-duplicated outcome of the rows' node writes and edge writes |
| Handler.SkippedRowContributesNothing | netlify/functions/graph.js:141-142 | a row whose node (relationship) is absent or has identity 0 changes no node (edge) write, wherever it stands |
| Handler.NodePresent | netlify/functions/graph.js:141 | `n?.identity` holds exactly when the node is present and its identity is truthy, so identity 0 is skipped |
| Handler.RelPresent | netlify/functions/graph.js:142 | `r?.identity` holds exactly when the relationship is present and its identity is truthy |
| Handler.IdsOfRows | netlify/functions/graph.js:141-142 | an identity is counted exactly when some row contributes it |
| Handler.KeysOfWrites | netlify/functions/graph.js:141-142 | a map's keys, in write order, are the string forms of the identities the rows contribute |
| Handler.KeysAreIdentities | netlify/functions/graph.js:141-142 | an identity's string is among a map's keys exactly when the identity is among those the rows contribute |
| Handler.KeyCount | netlify/functions/graph.js:141-142 | there are as many distinct keys as distinct identities |
| Handler.OnePerIdentity | netlify/functions/graph.js:138-149 | a map's value list has exactly one entry per distinct identity the rows contribute |
| Handler.NodeListOnePerIdentity | netlify/functions/graph.js:138-148 | the node list has exactly one record per distinct identity among present nodes |
| Handler.EdgeListOnePerIdentity | netlify/functions/graph.js:138-149 | the edge list has exactly one record per distinct identity among present relationships |
| Handler.LastRowWins | netlify/functions/graph.js:138-142 | the value a map holds for an identity is the one the last row contributing that identity wrote |
| Handler.NodeListHasLastRecord | netlify/functions/graph.js:138-148 | every present node identity has in the node list the record of the last row carrying it |
| Handler.EdgeListHasLastRecord | netlify/functions/graph.js:138-149 | every present relationship identity has in the edge list the record of the last row carrying it |
| Handler.WriteFromRow | netlify/functions/graph.js:141-142 | each `set` call stores what some row wrote |
| Handler.ListFromRows | netlify/functions/graph.js:138-149 | every entry of a map's value list is what some row wrote |
| Handler.NodeListFromRows | netlify/functions/graph.js:138-148 | every record in the node list was built from some row's present node |
| Handler.EdgeListFromRows | netlify/functions/graph.js:138-149 | every record in the edge list was built from some row's present relationship |
| Handler.EdgeIdsDistinct | netlify/functions/graph.js:142-149 | no two records of the edge list share an `id`, since each edge's `id` is the key it is stored under |
| Handler.RepeatedRowsAreIdempotent | netlify/functions/graph.js:138-149 | receiving every row twice yields the same node and edge lists |
| Handler.Fresh | netlify/functions/graph.js:95 | an empty cache is never fresh; a cached payload with a positive TTL is fresh at any clock reading not after its store time |
| Handler.GraphHandler.constructor | netlify/functions/graph.js:28 | the cache starts as `{ts: 0, payload: null}` |
| Handler.GraphHandler.Handle | netlify/functions/graph.js:75-171 | OPTIONS gives 204 and any other non-GET method 405, both without a query or a cache change; a fresh cache gives 200 with the cached payload and `max-age` equal to the TTL, without a query; otherwise the clamped limits are queried; a failure gives 500 with the message and leaves the cache alone; records give 200 with the new payload, and the cache becomes `{ts: now, payload}` |
| Handler.RepeatWithinTtl | netlify/functions/graph.js:93-152 | from a cold start, a GET within the TTL of a successful first GET gets the same response and sends no query |

## Left out

- `getDriver`, the environment-variable check and the driver itself are left out. So are the session and its `close`. The query is an input of `Handle`. In the source, the driver check runs outside the `try`, so a missing variable throws out of the handler rather than giving a 500; that path is not modelled.
- The Cypher text, and the bounds it applies (`LIMIT`, the restriction to relationships between selected nodes), are not modelled. The rows are arbitrary. The model only records which limits the query would carry.
- Handler.CacheSeconds: does not model `Number(...)` of a non-numeric or fractional setting (NaN, floats). The setting is an optional integer, and an empty string counts as unset.
- Handler.NodeLimit: does not model `parseInt` of non-numeric text (NaN).
- Handler.RowLimit: does not model `parseInt` of non-numeric text (NaN).
- Header strings and the JSON text of the body are not modelled. A response records its status, the `max-age` of its `Cache-Control` header when it has one, and the body as a value.
- `new Date().toISOString()` and `Date.now()` are parameters.
- Neo4j `Integer` objects and their `toString` are not modelled. The driver is created with `disableLosslessIntegers`, so identities arrive as JavaScript numbers. The model uses unbounded integers rendered in decimal and ignores the loss of precision above 2^53.
- Property values are strings, integers, booleans and lists of these. Floating-point numbers, temporal types, maps and `null` are not modelled. `String` of a list joins its elements with commas.
- Label length counts characters, where JavaScript's `length` counts UTF-16 code units.
- Vis.NodeToVis: a visual node is a map, so the key order of the JavaScript object is not modelled.
- Concurrent invocations sharing the cache slot are not modelled. Each `Handle` call is atomic.
- `test-ids.js` is a diagnostic script that prints query results. It is not part of this model.

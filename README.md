# seraph-snapshot in Dafny

A model of `seraph-snapshot.js`. This module snapshots a Neo4j property graph
through the seraph driver and replays the snapshot into a store. The model has
four components:

- **Extractor** (`fetchdb`, `dbToJSON`; module `Snapshot`). It runs one Cypher
  query for the nodes of a graph scope. It then normalises the answer rows into
  one object keyed `node_<id>` / `rel_<id>`, using JavaScript's
  insertion-ordered, overwrite-in-place object semantics.
- **Statement compiler** (`JSONtoStatementList`; module `Compiler`). It turns
  the snapshot into Cypher creation patterns: the nodes first, then the
  relationships. All of them are named from one shared counter (`node0`,
  `node1`, `rel2`, ...). A relationship's endpoints are looked up in the key
  map, and a missing endpoint reads as `undefined`. Property maps are written by
  `createParamString` with `JSON.stringify` values, whose string quoting
  (module `Json`) and integer text (module `Decimal`) are modelled with their
  read-back partners. Module `ParamText` reads a whole property map back.
- **Script renderer** (`JSONtoCypher`; module `Script`). It produces one
  `CREATE` query with all the patterns.
- **Transactional restorer** (`restoreTransactional`; module `Restore`).
  - It cuts the statement list into groups of 15.
  - It sends each group, one after another, as a single query. The query
    starts with `START name=node(id)` for every distinct ref, using the ids
    that earlier responses returned, then has `CREATE` and
    `RETURN id(x) as x`.
  - The first response's location becomes the transaction, and every later
    request goes there.
  - The first error stops the series. Otherwise `${txn}/commit` is posted with
    no statements.

The store is a parameter in both places:

- `dbToJSON` receives a function from query text to an answer (error or rows).
- The restore receives a function from the requests already sent plus the new
  request to a response. So the model covers any deterministic server.

Each loop of the source is a Dafny `method` with loop invariants, proved
against a specification function:

| method | specification function |
|---|---|
| `DbToJson` / `NormalizeRow` | `Normalized` |
| `CompileNodes` / `CompileRels` / `StatementList` | `Compiled` |
| `MakeGroups` | `Groups` |
| `RecordColumns` | `Record` |
| `SendGroups` / `RestoreTransactional` | `RunGroups` / `Restore` |

The lemmas then state what the source promises about those functions.

The code behaves as follows where a reader might expect otherwise:

- **Shared counter.** One counter names both nodes and relationships. The
  first relationship after two nodes is `rel2`, not `rel0`
  (`Compiler.CompiledShape`).
- **Missing endpoint.** A relationship whose endpoint node is missing from the
  snapshot is not rejected. Its pattern and refs hold `undefined`
  (`Compiler.RelRefs`, `Compiler.NodeRefSpec`).
- **Unescaped names.** Nothing the statements are built from is escaped:
  - Labels and relationship types are written between backticks, so a
    backtick in a label changes the pattern (`Compiler.LabelClauseCollision`).
  - Property keys are written between backticks as well, so the one key
    ``a`:1,`b`` gives the same property map as the two keys `a` and `b`
    (`ParamText.ParamKeyCollision`). Keys without a backtick read back
    (`ParamText.ParamsRoundTrip`).
  - The scope id of `fetchdb` is put between double quotes as it is, so a
    double quote in it ends the string literal early (`Snapshot.FetchQuery`).
- **Refs within a group.** Refs are bound with `START` even when the node is
  created in the same group. Such refs, and every ref of the first group,
  render as `node(undefined)` (`Restore.FirstGroupUnbound`).
- **Commit failure.** A failed commit reaches the caller exactly like a failed
  group: both are `Failed(error)`.
- **Empty location.** Because `!txn` is true for the empty string, an empty
  location leaves `txn` unset (`Restore.TxnFromFirstResponse`).
- **Empty snapshot.** An empty snapshot sends no group and then commits to
  `undefined/commit` (`Restore.EmptyRestore`).

## Model

| member | source | states |
|---|---|---|
| Snapshot.FetchQuery | seraph-snapshot.js:5-8 | the query is the fixed MATCH ... RETURN text with the scope identifier spliced in between the quotes, unchanged, and nothing else |
| Snapshot.FetchQueryInjective | seraph-snapshot.js:6 | different scope identifiers give different queries |
| Snapshot.KeysDistinct | seraph-snapshot.js:15-21 | a `node_` key never equals a `rel_` key, and each kind of key determines its id |
| Snapshot.PutKeys | seraph-snapshot.js:15-21 | an object assignment keeps existing keys in place and appends a new key at the end |
| Snapshot.PutAt | seraph-snapshot.js:15-21 | with distinct keys, an assignment changes only the entry of its own key |
| Snapshot.PutAllKeys | seraph-snapshot.js:13-26 | after all writes, the object's keys are the written keys, each once, in order of first write |
| Snapshot.PutAllValues | seraph-snapshot.js:13-26 | each key of the object holds the value last written under it |
| Snapshot.PutAllFromWrites | seraph-snapshot.js:13-26 | every entry of the object is one of the writes |
| Snapshot.WritesWellKeyed | seraph-snapshot.js:15-24 | every write puts a node under `node_<its id>` and a relationship under `rel_<its id>` |
| Snapshot.NormalizedSpec | seraph-snapshot.js:13-26 | the snapshot has no duplicate key, its keys are in first-write order, each entry holds the last write under its key, and every key names its own element |
| Snapshot.EntryOfKey | seraph-snapshot.js:13-26 | every written key, such as a relationship reported by several rows, has exactly one entry; it comes right after the distinct keys first written before it and holds the key's last write |
| Snapshot.RelSeenTwice | seraph-snapshot.js:20-25 | two rows that each report only the same relationship give the first node, then that relationship holding the second row's report, then the second node |
| Snapshot.NormalizeRow | seraph-snapshot.js:15-25 | one pass of the outer loop body adds the row's node write and then each relationship write to the object |
| Snapshot.DbToJson | seraph-snapshot.js:10-29 | a query error is passed on unchanged; otherwise the result is the normalised snapshot of the answer rows |
| Decimal.ParseShowInt | seraph-snapshot.js:15 | the decimal text of an integer id, as a template literal writes it, reads back as that integer |
| Decimal.ShowIntInjective | seraph-snapshot.js:15-21 | different ids have different decimal texts |
| Decimal.SamePrefixNames | seraph-snapshot.js:42-44 | `type + counter` names with the same prefix are equal exactly when the counter values are |
| Decimal.NamesDistinct | seraph-snapshot.js:42-44 | names with prefixes that start differently (`node`, `rel`) never collide |
| Json.QuoteRoundTrip | seraph-snapshot.js:38 | a string value as `JSON.stringify` quotes it reads back, escape by escape, as exactly the original string |
| Json.QuoteInjective | seraph-snapshot.js:38 | different strings have different quoted texts |
| Json.StringifyScalarRoundTrip | seraph-snapshot.js:38 | stringified string and integer values read back as the values they came from |
| Json.Without | seraph-snapshot.js:48 | after `delete`, no field has the deleted key, and every other field is kept |
| Json.WithoutAbsent | seraph-snapshot.js:48 | deleting a key the object does not have leaves it unchanged |
| Json.WithoutAt | seraph-snapshot.js:48 | deleting a key held by exactly one field removes that field and keeps every other field, in order |
| Compiler.FiltersCount | seraph-snapshot.js:32-34 | the node filter and the relationship filter together cover every snapshot entry exactly once |
| Compiler.FiltersKeep | seraph-snapshot.js:33-34 | each filter only yields entries of the snapshot, with their own kind |
| Compiler.EmitNode | seraph-snapshot.js:46-57 | a node callback takes the counter's value as its name, advances the counter, records the name under the node's key, and pushes the node's record |
| Compiler.EmitRel | seraph-snapshot.js:58-70 | a relationship callback takes the counter's value as its name, records it, and pushes the record with its endpoints looked up in the updated key map |
| Compiler.CompileNodes | seraph-snapshot.js:41-57 | the node loop leaves the key map of all nodes and the node records in snapshot order |
| Compiler.CompileRels | seraph-snapshot.js:58-70 | the relationship loop continues the counter and leaves the relationship records in snapshot order |
| Compiler.StatementList | seraph-snapshot.js:31-72 | the statement list is the node records followed by the relationship records, with the counter and key map carried across |
| Compiler.CompiledShape | seraph-snapshot.js:41-69 | one record per entry, nodes first; record `i` is named `node<i>` or `rel<i>` from the shared counter; node records have no refs, relationship records two |
| Compiler.IdsDistinct | seraph-snapshot.js:41-44 | no two records share a name |
| Compiler.NodeKeymapLookup | seraph-snapshot.js:49 | after the node loop, a key maps to the name of the last node stored under it, and no other key is mapped |
| Compiler.RelKeymapLookup | seraph-snapshot.js:60 | the relationship loop leaves the key-map entries of all other keys unchanged |
| Compiler.ItemKeys | seraph-snapshot.js:33-34 | in a well-keyed snapshot, each filtered item carries its own element's key |
| Compiler.NodeKeysDistinct | seraph-snapshot.js:33 | distinct snapshot keys stay distinct among the node items |
| Compiler.RelRefs | seraph-snapshot.js:62-67 | a relationship's refs are the names its start and end nodes received, or `undefined` for an endpoint missing from the snapshot |
| Compiler.NodeRefSpec | seraph-snapshot.js:62-63 | in an extracted snapshot, an endpoint resolves to `node<i>` exactly when node `i` has that id, and to `undefined` exactly when no node has it |
| Compiler.ReadLabelClause | seraph-snapshot.js:51 | a label clause whose labels contain no backtick reads back as exactly those labels, in order |
| Compiler.LabelClauseCollision | seraph-snapshot.js:51 | the one label "a`:`b" yields the same clause as the two labels "a" and "b" |
| ParamText.ReadValueStringify | seraph-snapshot.js:38 | the `JSON.stringify` text of a null, boolean, integer or string value, followed by a comma, a brace or nothing, reads back as that value and its length |
| ParamText.ParamsRoundTrip | seraph-snapshot.js:37-40 | a property map whose keys hold no backtick and whose values are scalars reads back from its text as exactly those properties, in order |
| ParamText.ParamKeyCollision | seraph-snapshot.js:38 | a key holding a backtick, a colon, a value's text, a comma and a backtick gives one property with the same text as two different properties |
| Script.CreateListSplit | seraph-snapshot.js:114 | the pattern list of a concatenation is the two lists joined by one comma |
| Restore.MakeGroups | seraph-snapshot.js:81-83 | the slicing loop builds the groups of 15 |
| Restore.GroupsSpec | seraph-snapshot.js:76-83 | the groups concatenate back to the statement list; there are ceil(N/15) of them, each of 1 to 15 statements, all but the last of exactly 15 |
| Restore.CreateListGroups | seraph-snapshot.js:81-88 | the groups' `CREATE` lists, joined by commas, are the whole statement list's `CREATE` list |
| Restore.ScriptMatchesRestore | seraph-snapshot.js:113-115 | the one-shot script creates the same patterns, in the same order, as the `CREATE` clauses of the groups the restore sends |
| Restore.StartListSpec | seraph-snapshot.js:86-87 | `START` appears exactly when some record in the group has a ref, and then binds each distinct ref once, in order of first use |
| Restore.FirstGroupUnbound | seraph-snapshot.js:77-86 | the first group binds every ref, even one created in that group, to `node(undefined)` |
| Restore.RecordColumns | seraph-snapshot.js:98-102 | the column loop gives the node map one update per column, in order |
| Restore.RecordKeys | seraph-snapshot.js:100-102 | afterwards the node map's keys are its old keys plus the columns |
| Restore.RecordKeeps | seraph-snapshot.js:100-102 | keys that are not columns keep their values |
| Restore.RecordSets | seraph-snapshot.js:99-102 | each column maps to the row's value in that column (`undefined` past the row's end), the later column winning when a name repeats |
| Restore.GroupRequestSendsGroup | seraph-snapshot.js:86-93 | a group's request carries one query, and that query ends with the group's `CREATE` and `RETURN` clauses |
| Restore.BuildQuery | seraph-snapshot.js:86-89 | the query text built step by step is the group's query |
| Restore.BuildRequest | seraph-snapshot.js:86-93 | the request goes to `txn` when it is set, otherwise to `transaction`, and holds the group's query |
| Restore.AbsorbResponse | seraph-snapshot.js:97-102 | a success sets `txn` only if it is still unset, and records the returned columns |
| Restore.SendGroups | seraph-snapshot.js:85-106 | the series loop sends exactly the series' requests, stops with the first error, and ends in the series' state |
| Restore.RestoreTransactional | seraph-snapshot.js:74-111 | the restore sends the group series and then, unless a group failed, the commit; its outcome is the restore's outcome |
| Restore.RunStops | seraph-snapshot.js:94-107 | without an error every group was sent; with one, the last request sent is the one that failed, and it failed with that error |
| Restore.RunSucceeds | seraph-snapshot.js:94-104 | every request before the failing one, or every request if none failed, was answered with success |
| Restore.RunSendsGroups | seraph-snapshot.js:85-93 | the k-th request of the series posts the k-th group's query |
| Restore.TxnKept | seraph-snapshot.js:90-97 | once `txn` is set it is never replaced, and every later request goes to it |
| Restore.TxnFromFirstResponse | seraph-snapshot.js:79-97 | the first group goes to `transaction`; a non-empty first location becomes `txn`, and every later group goes there; an empty one leaves the next group opening a transaction again |
| Restore.RestoreFails | seraph-snapshot.js:95-107 | a failing group ends the restore with its error and no commit is sent; every request sent holds one statement |
| Restore.RestoreCommits | seraph-snapshot.js:106-110 | without a failing group, exactly one request per group is followed by one empty commit to `${txn}/commit`, and the restore commits exactly when that commit succeeds |
| Restore.EmptyRestore | seraph-snapshot.js:106-109 | an empty snapshot sends no group and then, with `txn` never set, only a commit to `undefined/commit` |

## Left out

- The seraph transport: `db.query`, `db.operation` and `db.call` are a function parameter. The callbacks and `async.forEachSeries` become sequential code.
- Parsing the transaction location: the response carries the path left after `require('url').parse(transLoc).path.replace(...)`. URL parsing and the driver's configured endpoint are not modelled.
- Exceptions thrown on malformed responses are not modelled, for example when `result.results[0]` or `data[0]` is missing. The response always has a column list and one row, possibly empty.
- Only integer numbers are modelled. Floating-point numbers, `NaN`/`Infinity` and exponent notation in `JSON.stringify` are left out. So are lone surrogate code points in strings, which `JSON.stringify` escapes as `\u` sequences.
- Own-key order: `Object.keys` lists integer-like keys first, in numeric order. Every object is modelled with keys in insertion order, as it is for the `node_`/`rel_` keys and ordinary property names.
- Json.Stringify: arrays and nested objects are rendered, but the read-back lemmas cover strings and integers only.
- ParamText.ParamsRoundTrip: covers property values that are null, booleans, integers or strings. Arrays and nested objects are not read back.
- Module exports and the `cypher` wrapper (seraph-snapshot.js:117-127) only wire the three operations together, so they are left out.
- `delete node.data.id` mutates the caller's snapshot in place. The model builds the node's properties without `id` as a new value and does not model the aliasing side effect.
- Restore.RestoreCommits: says nothing about what a server returns. How many entries the node map ends with depends on the columns the server returns, so no count is stated.
- Restore.RunGroups: is written over any request-building step, not only the restore's own. The lemmas about the series hold for every step that posts its group's query.

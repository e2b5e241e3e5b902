/** The snapshot extractor (`fetchdb` and `dbToJSON`, seraph-snapshot.js:5-29).
    The store's answer to the extraction query is a list of rows, one per node,
    each with the node, its labels and its incident relationships. The rows
    become one keyed object: `node_<id>` for a node, `rel_<id>` for a
    relationship. A JavaScript object keeps a key at the place where it was
    first inserted and an assignment to an existing key overwrites its value in
    place; the object is modelled as a sequence of (key, entry) pairs with that
    behaviour. */
module Snapshot {
  import opened Util
  import opened Decimal
  import opened Json

  /** A node object as the driver returns it: the store-assigned `id` and the
      node's other fields. */
  datatype Node = Node(id: int, properties: Props)

  /** A relationship object: its id, the ids of its start and end nodes, its
      type and its property map. */
  datatype Rel = Rel(id: int, start: int, end: int, relType: string, properties: Props)

  /** One row of the extraction query: `node, labels(node), collect(rel)`. */
  datatype Row = Row(node: Node, labels: seq<string>, rels: seq<Rel>)

  /** `{type: 'node', labels, data}` or `{type: 'rel', data}`. */
  datatype Entry = NodeEntry(labels: seq<string>, node: Node) | RelEntry(rel: Rel)

  /** The normalised snapshot: an object from key to entry, in insertion order. */
  type Snapshot = seq<(string, Entry)>

  /** The store's answer to a query: an error or the rows. */
  datatype Answer = QueryError(error: string) | Rows(rows: seq<Row>)

  datatype Extracted = ExtractionError(error: string) | Extracted(snapshot: Snapshot)

  const FetchPrefix: string := "MATCH (node) WHERE node.graph_id = \""
  const FetchSuffix: string :=
    "\" OPTIONAL MATCH (node)-[rel]-(x) RETURN node, labels(node) as labels, collect(rel) as rels;"

  /** `fetchdb(id)`: the extraction query for the nodes whose `graph_id` is `graphId`. */
  function FetchQuery(graphId: string): (q: string)
    ensures |q| == |FetchPrefix| + |graphId| + |FetchSuffix|
    ensures q[..|FetchPrefix|] == FetchPrefix
    ensures q[|FetchPrefix|..|FetchPrefix| + |graphId|] == graphId
    ensures q[|FetchPrefix| + |graphId|..] == FetchSuffix
  {
    FetchPrefix + graphId + FetchSuffix
  }

  /** The scope identifier is written into the query unchanged: different
      identifiers give different queries. */
  lemma FetchQueryInjective(a: string, b: string)
    ensures FetchQuery(a) == FetchQuery(b) <==> a == b
  {
    if FetchQuery(a) == FetchQuery(b) {
      assert |a| == |b|;
      assert a == FetchQuery(a)[|FetchPrefix|..|FetchPrefix| + |a|];
    }
  }

  function NodeKey(id: int): string
  {
    "node_" + ShowInt(id)
  }

  function RelKey(id: int): string
  {
    "rel_" + ShowInt(id)
  }

  /** Keys name one element each: node keys and relationship keys never meet,
      and each kind's key determines the id. */
  lemma KeysDistinct(a: int, b: int)
    ensures NodeKey(a) != RelKey(b)
    ensures NodeKey(a) == NodeKey(b) <==> a == b
    ensures RelKey(a) == RelKey(b) <==> a == b
  {
    assert NodeKey(a)[0] == 'n' && RelKey(b)[0] == 'r';
    SamePrefixInts("node_", a, b);
    SamePrefixInts("rel_", a, b);
  }

  function KeysOf(m: Snapshot): (ks: seq<string>)
    ensures |ks| == |m| && forall i :: 0 <= i < |m| ==> ks[i] == m[i].0
  {
    seq(|m|, i requires 0 <= i < |m| => m[i].0)
  }

  /** Assigning a key of an object: overwrite in place when `k` is a key
      already, else append. */
  function Put(m: Snapshot, k: string, e: Entry): Snapshot
  {
    var ks := KeysOf(m);
    if k in ks then m[FirstIndex(ks, k) := (k, e)] else m + [(k, e)]
  }

  /** The object that results from writing `ws` in order into an empty one. */
  function PutAll(ws: Snapshot): Snapshot
  {
    if |ws| == 0 then [] else
    var last := ws[|ws| - 1];
    Put(PutAll(ws[..|ws| - 1]), last.0, last.1)
  }

  function NodeWrite(row: Row): (string, Entry)
  {
    (NodeKey(row.node.id), NodeEntry(row.labels, row.node))
  }

  function RelWrite(rel: Rel): (string, Entry)
  {
    (RelKey(rel.id), RelEntry(rel))
  }

  /** The writes one row makes: its node, then each incident relationship. */
  function RowWrites(row: Row): Snapshot
  {
    [NodeWrite(row)] + seq(|row.rels|, j requires 0 <= j < |row.rels| => RelWrite(row.rels[j]))
  }

  /** The writes of all rows, in the order of the two nested loops. */
  function Writes(rows: seq<Row>): Snapshot
  {
    if |rows| == 0 then [] else Writes(rows[..|rows| - 1]) + RowWrites(rows[|rows| - 1])
  }

  /** The snapshot `dbToJSON` builds from the rows. */
  function Normalized(rows: seq<Row>): Snapshot
  {
    PutAll(Writes(rows))
  }

  /** The value last written under `k`. */
  function LastWrite(ws: Snapshot, k: string): Entry
    requires k in KeysOf(ws)
  {
    var last := ws[|ws| - 1];
    if last.0 == k then last.1
    else
      assert k in KeysOf(ws[..|ws| - 1]) by {
        var i := FirstIndex(KeysOf(ws), k);
        assert ws[..|ws| - 1][i].0 == k;
      }
      LastWrite(ws[..|ws| - 1], k)
  }

  /** A write keeps the keys in place and appends a new key at the end. */
  lemma PutKeys(m: Snapshot, k: string, e: Entry)
    ensures KeysOf(Put(m, k, e)) == if k in KeysOf(m) then KeysOf(m) else KeysOf(m) + [k]
  {
  }

  /** With distinct keys, a write changes the entry of its key only. */
  lemma PutAt(m: Snapshot, k: string, e: Entry, i: nat)
    requires NoDups(KeysOf(m)) && i < |Put(m, k, e)|
    ensures Put(m, k, e)[i] == if Put(m, k, e)[i].0 == k then (k, e) else m[i]
  {
    var ks := KeysOf(m);
    if k in ks {
      var x := FirstIndex(ks, k);
      if i != x {
        assert ks[i] != ks[x];
      }
    }
  }

  /** The object has each written key once, at the place of its first write. */
  lemma {:induction false} PutAllKeys(ws: Snapshot)
    ensures KeysOf(PutAll(ws)) == Uniq(KeysOf(ws))
  {
    if |ws| > 0 {
      var init := ws[..|ws| - 1];
      var last := ws[|ws| - 1];
      PutAllKeys(init);
      assert KeysOf(ws) == KeysOf(init) + [last.0];
      UniqAppend(KeysOf(init), last.0);
      UniqSpec(KeysOf(init));
      PutKeys(PutAll(init), last.0, last.1);
    }
  }

  /** Each key of the object holds the value of its last write. */
  lemma {:induction false} PutAllValues(ws: Snapshot)
    ensures forall i :: 0 <= i < |PutAll(ws)| ==>
              PutAll(ws)[i].0 in KeysOf(ws) && PutAll(ws)[i].1 == LastWrite(ws, PutAll(ws)[i].0)
  {
    if |ws| > 0 {
      var init := ws[..|ws| - 1];
      var last := ws[|ws| - 1];
      PutAllValues(init);
      PutAllKeys(init);
      UniqSpec(KeysOf(init));
      var m := PutAll(init);
      var r := PutAll(ws);
      assert KeysOf(ws) == KeysOf(init) + [last.0];
      forall i | 0 <= i < |r|
        ensures r[i].0 in KeysOf(ws) && r[i].1 == LastWrite(ws, r[i].0)
      {
        PutAt(m, last.0, last.1, i);
        if r[i].0 != last.0 {
          assert r[i] == m[i];
        }
      }
    }
  }

  /** Every entry of the object is one of the writes. */
  lemma {:induction false} PutAllFromWrites(ws: Snapshot)
    ensures forall i :: 0 <= i < |PutAll(ws)| ==> PutAll(ws)[i] in ws
  {
    if |ws| > 0 {
      var init := ws[..|ws| - 1];
      var last := ws[|ws| - 1];
      PutAllFromWrites(init);
      var m := PutAll(init);
      forall i | 0 <= i < |PutAll(ws)|
        ensures PutAll(ws)[i] in ws
      {
        if PutAll(ws)[i] != last {
          assert PutAll(ws)[i] == m[i];
          assert m[i] in init;
        }
      }
    }
  }

  /** Node entries sit under `node_<id>` of their node, relationship entries
      under `rel_<id>` of their relationship. */
  predicate WellKeyed(s: Snapshot)
  {
    forall i :: 0 <= i < |s| ==>
      match s[i].1
      case NodeEntry(_, n) => s[i].0 == NodeKey(n.id)
      case RelEntry(r) => s[i].0 == RelKey(r.id)
  }

  lemma {:induction false} WritesWellKeyed(rows: seq<Row>)
    ensures WellKeyed(Writes(rows))
  {
    if |rows| > 0 {
      WritesWellKeyed(rows[..|rows| - 1]);
    }
  }

  /** What the extractor guarantees of its result: one entry per key, keys in
      order of first write, each holding the last value written under it, and
      every key naming its own element. */
  lemma NormalizedSpec(rows: seq<Row>)
    ensures KeysOf(Normalized(rows)) == Uniq(KeysOf(Writes(rows)))
    ensures NoDups(KeysOf(Normalized(rows)))
    ensures WellKeyed(Normalized(rows))
    ensures forall i :: 0 <= i < |Normalized(rows)| ==>
              Normalized(rows)[i].0 in KeysOf(Writes(rows)) &&
              Normalized(rows)[i].1 == LastWrite(Writes(rows), Normalized(rows)[i].0)
  {
    var ws := Writes(rows);
    PutAllKeys(ws);
    PutAllValues(ws);
    UniqSpec(KeysOf(ws));
    PutAllFromWrites(ws);
    WritesWellKeyed(rows);
  }

  /** Every written key, in particular the key of a relationship that several
      rows report, has exactly one entry in the snapshot. That entry stands
      after the distinct keys written before the key's first write, and it
      holds the key's last write. */
  lemma EntryOfKey(rows: seq<Row>, k: string)
    requires k in KeysOf(Writes(rows))
    ensures var ks := KeysOf(Writes(rows));
            var i := |Uniq(ks[..FirstIndex(ks, k)])|;
            i < |Normalized(rows)| && Normalized(rows)[i] == (k, LastWrite(Writes(rows), k)) &&
            forall j :: 0 <= j < |Normalized(rows)| && j != i ==> Normalized(rows)[j].0 != k
  {
    PutAllEntry(Writes(rows), k);
  }

  /** `EntryOfKey` for any sequence of writes. */
  lemma PutAllEntry(ws: Snapshot, k: string)
    requires k in KeysOf(ws)
    ensures var ks := KeysOf(ws);
            var i := |Uniq(ks[..FirstIndex(ks, k)])|;
            i < |PutAll(ws)| && PutAll(ws)[i] == (k, LastWrite(ws, k)) &&
            forall j :: 0 <= j < |PutAll(ws)| && j != i ==> PutAll(ws)[j].0 != k
  {
    var ks := KeysOf(ws);
    var i := |Uniq(ks[..FirstIndex(ks, k)])|;
    PutAllKeys(ws);
    UniqPosition(ks, k);
    PutAllValues(ws);
    assert PutAll(ws)[i].0 == k;
  }

  lemma SnocAssoc<T>(a: seq<T>, b: seq<T>, x: T)
    ensures a + (b + [x]) == (a + b) + [x]
  {
  }

  lemma PutAllAppend(ws: Snapshot, w: (string, Entry))
    ensures PutAll(ws + [w]) == Put(PutAll(ws), w.0, w.1)
  {
    assert (ws + [w])[..|ws|] == ws;
  }

  lemma PutFresh(m: Snapshot, w: (string, Entry))
    requires w.0 !in KeysOf(m)
    ensures Put(m, w.0, w.1) == m + [w]
  {
  }

  lemma TwoRowWrites(a: Row, b: Row, r1: Rel, r2: Rel)
    requires a.rels == [r1] && b.rels == [r2]
    ensures Writes([a, b]) == [NodeWrite(a), RelWrite(r1), NodeWrite(b)] + [RelWrite(r2)]
  {
    assert RowWrites(a) == [NodeWrite(a), RelWrite(r1)];
    assert RowWrites(b) == [NodeWrite(b), RelWrite(r2)];
    assert [a, b][..1] == [a];
    assert [a][..0] == [];
    assert Writes([a]) == [] + RowWrites(a);
    assert Writes([a, b]) == Writes([a]) + RowWrites(b);
  }

  lemma ThreeFresh(w0: (string, Entry), w1: (string, Entry), w2: (string, Entry))
    requires w1.0 != w0.0 && w2.0 != w0.0 && w2.0 != w1.0
    ensures PutAll([w0, w1, w2]) == [w0, w1, w2]
  {
    PutAllAppend([], w0);
    assert [] + [w0] == [w0];
    PutFresh([], w0);
    PutAllAppend([w0], w1);
    assert [w0] + [w1] == [w0, w1];
    PutFresh([w0], w1);
    PutAllAppend([w0, w1], w2);
    assert [w0, w1] + [w2] == [w0, w1, w2];
    assert w2.0 !in KeysOf([w0, w1]);
    PutFresh([w0, w1], w2);
  }

  /** The smallest case of `EntryOfKey`: two rows that each report only the
      same relationship give the first node, then the relationship holding
      the second row's report, then the second node. */
  lemma RelSeenTwice(a: Row, b: Row, r1: Rel, r2: Rel)
    requires a.rels == [r1] && b.rels == [r2] && r1.id == r2.id
    requires a.node.id != b.node.id
    ensures Normalized([a, b]) == [NodeWrite(a), RelWrite(r2), NodeWrite(b)]
  {
    var w0, w1, w2, w3 := NodeWrite(a), RelWrite(r1), NodeWrite(b), RelWrite(r2);
    KeysDistinct(a.node.id, b.node.id);
    KeysDistinct(a.node.id, r1.id);
    KeysDistinct(b.node.id, r1.id);
    TwoRowWrites(a, b, r1, r2);
    ThreeFresh(w0, w1, w2);
    PutAllAppend([w0, w1, w2], w3);
    assert KeysOf([w0, w1, w2]) == [w0.0, w1.0, w2.0];
    assert FirstIndex(KeysOf([w0, w1, w2]), w3.0) == 1;
  }

  /** The node write opens a row's writes. */
  lemma RowStart(done: Snapshot, row: Row)
    ensures PutAll(done + RowWrites(row)[..1]) == Put(PutAll(done), NodeKey(row.node.id), NodeEntry(row.labels, row.node))
  {
    assert done + RowWrites(row)[..1] == done + [NodeWrite(row)];
    PutAllAppend(done, NodeWrite(row));
  }

  /** Writing one more element of `ws` after `done`. */
  lemma PrefixStep(done: Snapshot, ws: Snapshot, k: nat)
    requires k < |ws|
    ensures PutAll(done + ws[..k + 1]) == Put(PutAll(done + ws[..k]), ws[k].0, ws[k].1)
  {
    assert ws[..k + 1] == ws[..k] + [ws[k]];
    SnocAssoc(done, ws[..k], ws[k]);
    PutAllAppend(done + ws[..k], ws[k]);
  }

  /** The `j`-th relationship write of a row. */
  lemma RowRelStep(done: Snapshot, row: Row, j: nat)
    requires j < |row.rels|
    ensures PutAll(done + RowWrites(row)[..j + 2])
         == Put(PutAll(done + RowWrites(row)[..j + 1]), RelKey(row.rels[j].id), RelEntry(row.rels[j]))
  {
    var rw := RowWrites(row);
    RelWriteAt(row, j);
    PrefixStep(done, rw, j + 1);
  }

  lemma RelWriteAt(row: Row, j: nat)
    requires j < |row.rels|
    ensures RowWrites(row)[j + 1] == RelWrite(row.rels[j])
  {
  }

  lemma WritesStep(rows: seq<Row>, i: nat)
    requires i < |rows|
    ensures Writes(rows[..i + 1]) == Writes(rows[..i]) + RowWrites(rows[i])
  {
    assert rows[..i + 1][..i] == rows[..i];
  }

  /** The body of the outer loop: one row's node, then its relationships. */
  method NormalizeRow(normalized: Snapshot, row: Row, ghost done: Snapshot) returns (r: Snapshot)
    requires normalized == PutAll(done)
    ensures r == PutAll(done + RowWrites(row))
  {
    r := Put(normalized, NodeKey(row.node.id), NodeEntry(row.labels, row.node));
    RowStart(done, row);
    var j := 0;
    while j < |row.rels|
      invariant 0 <= j <= |row.rels|
      invariant r == PutAll(done + RowWrites(row)[..j + 1])
    {
      var rel := row.rels[j];
      r := Put(r, RelKey(rel.id), RelEntry(rel));
      RowRelStep(done, row, j);
      j := j + 1;
    }
    assert RowWrites(row)[..j + 1] == RowWrites(row);
  }

  /** `dbToJSON`: run the extraction query; a query error is passed on
      unchanged, otherwise the rows are normalised in two nested loops. */
  method DbToJson(db: string -> Answer, graphId: string) returns (r: Extracted)
    ensures db(FetchQuery(graphId)).QueryError? ==> r == ExtractionError(db(FetchQuery(graphId)).error)
    ensures db(FetchQuery(graphId)).Rows? ==> r == Extracted(Normalized(db(FetchQuery(graphId)).rows))
  {
    var answer := db(FetchQuery(graphId));
    if answer.QueryError? {
      return ExtractionError(answer.error);
    }
    var rows := answer.rows;
    var normalized: Snapshot := [];
    var i := 0;
    while i < |rows|
      invariant 0 <= i <= |rows|
      invariant normalized == PutAll(Writes(rows[..i]))
    {
      normalized := NormalizeRow(normalized, rows[i], Writes(rows[..i]));
      WritesStep(rows, i);
      i := i + 1;
    }
    assert rows[..i] == rows;
    return Extracted(normalized);
  }
}

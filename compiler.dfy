/** The statement compiler (`JSONtoStatementList`, seraph-snapshot.js:31-72).
    It turns a snapshot into Cypher creation patterns: every node entry first,
    then every relationship entry, each kind in snapshot key order. One counter
    names them all (`node0`, `node1`, `rel2`, ...). A relationship refers to its
    endpoints by the names the nodes received, looked up in the key map. */
module Compiler {
  import opened Util
  import opened Decimal
  import opened Json
  import opened Snapshot

  /** `{statement, refs, id}`. A ref is `None` where the key-map lookup gives
      `undefined`. */
  datatype Create = Create(statement: string, refs: seq<Option<string>>, id: string)

  datatype NodeItem = NodeItem(key: string, labels: seq<string>, node: Node)
  datatype RelItem = RelItem(key: string, rel: Rel)

  /** The snapshot's node entries, in key order, each with its key. */
  function NodesOf(s: Snapshot): seq<NodeItem>
  {
    if |s| == 0 then [] else
    var last := s[|s| - 1];
    NodesOf(s[..|s| - 1]) + match last.1
      case NodeEntry(labels, node) => [NodeItem(last.0, labels, node)]
      case RelEntry(_) => []
  }

  /** The snapshot's relationship entries, in key order, each with its key. */
  function RelsOf(s: Snapshot): seq<RelItem>
  {
    if |s| == 0 then [] else
    var last := s[|s| - 1];
    RelsOf(s[..|s| - 1]) + match last.1
      case NodeEntry(_, _) => []
      case RelEntry(rel) => [RelItem(last.0, rel)]
  }

  /** The two filters split the snapshot: every entry is a node or a
      relationship. */
  lemma {:induction false} FiltersCount(s: Snapshot)
    ensures |NodesOf(s)| + |RelsOf(s)| == |s|
  {
    if |s| > 0 {
      FiltersCount(s[..|s| - 1]);
    }
  }

  /** Each filter keeps entries of the snapshot. */
  lemma {:induction false} FiltersKeep(s: Snapshot)
    ensures forall i :: 0 <= i < |NodesOf(s)| ==>
              (NodesOf(s)[i].key, NodeEntry(NodesOf(s)[i].labels, NodesOf(s)[i].node)) in s
    ensures forall j :: 0 <= j < |RelsOf(s)| ==> (RelsOf(s)[j].key, RelEntry(RelsOf(s)[j].rel)) in s
  {
    if |s| > 0 {
      var init := s[..|s| - 1];
      FiltersKeep(init);
      assert forall p :: p in init ==> p in s;
    }
  }

  function NodeName(i: nat): string
  {
    "node" + ShowNat(i)
  }

  function RelName(i: nat): string
  {
    "rel" + ShowNat(i)
  }

  /** The text a key-map lookup gives inside a template string: the name, or
      `undefined` when the key is missing. */
  function RefText(r: Option<string>): string
  {
    match r
    case None => "undefined"
    case Some(name) => name
  }

  function Lookup(km: map<string, string>, k: string): Option<string>
  {
    if k in km then Some(km[k]) else None
  }

  /** One entry of a Cypher map literal: the key between backticks, then the
      value as `JSON.stringify` writes it. */
  function Param(p: (string, Value)): string
  {
    "`" + p.0 + "`:" + Stringify(p.1)
  }

  /** The entries of the object's own keys, in order. */
  function Params(props: Props): seq<string>
  {
    if |props| == 0 then [] else Params(props[..|props| - 1]) + [Param(props[|props| - 1])]
  }

  /** `createParamString(obj)`: the entries joined by commas, between braces. */
  function ParamString(props: Props): string
  {
    "{" + Join(",", Params(props)) + "}"
  }

  /** The label part of a node pattern: `:` and the label between backticks,
      for each label; the label text is not escaped. */
  function LabelClause(labels: seq<string>): string
  {
    Concat(seq(|labels|, i requires 0 <= i < |labels| => ":`" + labels[i] + "`"))
  }

  /** `(name:`L1`:`L2` {params})`. */
  function NodeStatement(name: string, labels: seq<string>, params: string): string
  {
    Concat(["(", name, LabelClause(labels), " ", params, ")"])
  }

  /** `(start)-[name:`TYPE` {params}]->(finish)`; the type is not escaped. */
  function RelStatement(start: Option<string>, name: string, relType: string, params: string,
                        finish: Option<string>): string
  {
    Concat(["(", RefText(start), ")-[", name, ":`", relType, "` ", params, "]->(", RefText(finish), ")"])
  }

  /** The record for the `i`-th statement, a node: its `id` field deleted. */
  function NodeCreate(item: NodeItem, i: nat): Create
  {
    var name := NodeName(i);
    Create(NodeStatement(name, item.labels, ParamString(Without(item.node.properties, "id"))), [], name)
  }

  /** The record for the `i`-th statement, a relationship, looking its
      endpoints up in `km`. */
  function RelCreate(item: RelItem, i: nat, km: map<string, string>): Create
  {
    var name := RelName(i);
    var start := Lookup(km, NodeKey(item.rel.start));
    var finish := Lookup(km, NodeKey(item.rel.end));
    Create(RelStatement(start, name, item.rel.relType, ParamString(item.rel.properties), finish),
           [start, finish], name)
  }

  /** The key map once the node loop has named the first `n` nodes. */
  function NodeKeymap(nodes: seq<NodeItem>, n: nat): map<string, string>
    requires n <= |nodes|
  {
    if n == 0 then map[] else NodeKeymap(nodes, n - 1)[nodes[n - 1].key := NodeName(n - 1)]
  }

  /** The key map once the relationship loop has named the first `n` of
      `rels`, starting from `km` and counting from `base`. */
  function RelKeymap(rels: seq<RelItem>, base: nat, km: map<string, string>, n: nat): map<string, string>
    requires n <= |rels|
  {
    if n == 0 then km else RelKeymap(rels, base, km, n - 1)[rels[n - 1].key := RelName(base + n - 1)]
  }

  function NodeCreates(nodes: seq<NodeItem>): seq<Create>
  {
    seq(|nodes|, i requires 0 <= i < |nodes| => NodeCreate(nodes[i], i))
  }

  /** The records of `rels`, the `j`-th looking its endpoints up in the key
      map as it stands once that relationship itself has been named. */
  function RelCreates(rels: seq<RelItem>, base: nat, km: map<string, string>): seq<Create>
  {
    seq(|rels|, j requires 0 <= j < |rels| => RelCreate(rels[j], base + j, RelKeymap(rels, base, km, j + 1)))
  }

  /** The statement list of a snapshot: one record per entry. */
  function Compiled(s: Snapshot): (r: seq<Create>)
    ensures |r| == |NodesOf(s)| + |RelsOf(s)|
  {
    var nodes := NodesOf(s);
    NodeCreates(nodes) + RelCreates(RelsOf(s), |nodes|, NodeKeymap(nodes, |nodes|))
  }

  lemma NodeCreateText(item: NodeItem, i: nat)
    ensures NodeCreate(item, i)
         == Create(NodeStatement(NodeName(i), item.labels, ParamString(Without(item.node.properties, "id"))), [], NodeName(i))
  {
  }

  lemma RelCreateText(item: RelItem, i: nat, km: map<string, string>)
    ensures var start := Lookup(km, NodeKey(item.rel.start));
            var finish := Lookup(km, NodeKey(item.rel.end));
            RelCreate(item, i, km)
              == Create(RelStatement(start, RelName(i), item.rel.relType, ParamString(item.rel.properties), finish),
                        [start, finish], RelName(i))
  {
  }

  lemma NodeCreatesShape(nodes: seq<NodeItem>)
    ensures forall i :: 0 <= i < |nodes| ==> NodeCreates(nodes)[i].id == NodeName(i) && NodeCreates(nodes)[i].refs == []
  {
    forall i | 0 <= i < |nodes|
      ensures NodeCreates(nodes)[i].id == NodeName(i) && NodeCreates(nodes)[i].refs == []
    {
      assert NodeCreates(nodes)[i] == NodeCreate(nodes[i], i);
    }
  }

  lemma RelCreateAt(rels: seq<RelItem>, base: nat, km: map<string, string>, j: nat)
    requires j < |rels|
    ensures var km' := RelKeymap(rels, base, km, j + 1);
            RelCreates(rels, base, km)[j].id == RelName(base + j) &&
            RelCreates(rels, base, km)[j].refs
              == [Lookup(km', NodeKey(rels[j].rel.start)), Lookup(km', NodeKey(rels[j].rel.end))]
  {
    var km' := RelKeymap(rels, base, km, j + 1);
    RelCreateText(rels[j], base + j, km');
    assert RelCreates(rels, base, km)[j] == RelCreate(rels[j], base + j, km');
  }

  lemma RelCreatesShape(rels: seq<RelItem>, base: nat, km: map<string, string>)
    ensures forall j :: 0 <= j < |rels| ==>
              RelCreates(rels, base, km)[j].id == RelName(base + j) && |RelCreates(rels, base, km)[j].refs| == 2
  {
    forall j | 0 <= j < |rels|
      ensures RelCreates(rels, base, km)[j].id == RelName(base + j) && |RelCreates(rels, base, km)[j].refs| == 2
    {
      RelCreateAt(rels, base, km, j);
    }
  }

  /** The node loop's invariant after `i` turns: the key map and the records
      so far are those of the first `i` nodes. */
  predicate NodesDone(nodes: seq<NodeItem>, i: nat, keymap: map<string, string>, creates: seq<Create>)
    requires i <= |nodes|
  {
    keymap == NodeKeymap(nodes, i) && creates == NodeCreates(nodes)[..i]
  }

  /** One turn of the node loop: name node `i`, then emit its record. */
  lemma NodesAdvance(nodes: seq<NodeItem>, i: nat, counter: nat, keymap: map<string, string>, creates: seq<Create>,
                     keymap': map<string, string>, creates': seq<Create>)
    requires i < |nodes| && counter == i && NodesDone(nodes, i, keymap, creates)
    requires keymap' == keymap[nodes[i].key := NodeName(counter)]
    requires creates' == creates + [NodeCreate(nodes[i], counter)]
    ensures NodesDone(nodes, i + 1, keymap', creates')
  {
    SnocSlice(NodeCreates(nodes), i);
  }

  /** The relationship loop's invariant after `j` turns: the key map and the
      records so far are those of the first `j` relationships. */
  predicate RelsDone(rels: seq<RelItem>, base: nat, km: map<string, string>, j: nat,
                     keymap: map<string, string>, creates: seq<Create>)
    requires j <= |rels|
  {
    keymap == RelKeymap(rels, base, km, j) && creates == RelCreates(rels, base, km)[..j]
  }

  /** One turn of the relationship loop: name relationship `j`, then emit
      its record from the updated key map. */
  lemma RelsAdvance(rels: seq<RelItem>, base: nat, km: map<string, string>, j: nat,
                    counter: nat, keymap: map<string, string>, creates: seq<Create>,
                    keymap': map<string, string>, creates': seq<Create>)
    requires j < |rels| && counter == base + j && RelsDone(rels, base, km, j, keymap, creates)
    requires keymap' == keymap[rels[j].key := RelName(counter)]
    requires creates' == creates + [RelCreate(rels[j], counter, keymap')]
    ensures RelsDone(rels, base, km, j + 1, keymap', creates')
  {
    SnocSlice(RelCreates(rels, base, km), j);
  }

  /** The `nodes.forEach` callback for the node under `item.key`: takes a
      name from the counter (`createUniqueName`), records it in the key map,
      then pushes the node's record. */
  method EmitNode(item: NodeItem, counter: nat, keymap: map<string, string>, creates: seq<Create>)
    returns (counter': nat, keymap': map<string, string>, creates': seq<Create>)
    ensures counter' == counter + 1
    ensures keymap' == keymap[item.key := NodeName(counter)]
    ensures creates' == creates + [NodeCreate(item, counter)]
  {
    var name := "node" + ShowNat(counter);
    counter' := counter + 1;
    keymap' := keymap[item.key := name];
    var params := ParamString(Without(item.node.properties, "id"));
    creates' := creates + [Create(NodeStatement(name, item.labels, params), [], name)];
    NodeCreateText(item, counter);
  }

  /** The `rels.forEach` callback for the relationship under `item.key`:
      takes a name from the counter, records it in the key map, then pushes
      the record with its endpoints looked up in the key map as it now
      stands. */
  method EmitRel(item: RelItem, counter: nat, keymap: map<string, string>, creates: seq<Create>)
    returns (counter': nat, keymap': map<string, string>, creates': seq<Create>)
    ensures counter' == counter + 1
    ensures keymap' == keymap[item.key := RelName(counter)]
    ensures creates' == creates + [RelCreate(item, counter, keymap')]
  {
    var name := "rel" + ShowNat(counter);
    counter' := counter + 1;
    keymap' := keymap[item.key := name];
    var params := ParamString(item.rel.properties);
    var start := Lookup(keymap', NodeKey(item.rel.start));
    var finish := Lookup(keymap', NodeKey(item.rel.end));
    creates' := creates + [Create(RelStatement(start, name, item.rel.relType, params, finish), [start, finish], name)];
    RelCreateText(item, counter, keymap');
  }

  /** The `nodes.forEach` loop: names each node from the shared counter,
      records the name in the key map and emits its record. */
  method CompileNodes(nodes: seq<NodeItem>) returns (keymap: map<string, string>, creates: seq<Create>)
    ensures keymap == NodeKeymap(nodes, |nodes|)
    ensures creates == NodeCreates(nodes)
  {
    keymap := map[];
    creates := [];
    var uniqueNameIndex: nat := 0;
    var i := 0;
    while i < |nodes|
      invariant 0 <= i <= |nodes| && uniqueNameIndex == i
      invariant NodesDone(nodes, i, keymap, creates)
    {
      var counter', keymap', creates' := EmitNode(nodes[i], uniqueNameIndex, keymap, creates);
      NodesAdvance(nodes, i, uniqueNameIndex, keymap, creates, keymap', creates');
      uniqueNameIndex, keymap, creates := counter', keymap', creates';
      i := i + 1;
    }
    assert creates == NodeCreates(nodes)[..|nodes|];
  }

  /** The `rels.forEach` loop: continues the counter from `base`, records each
      relationship's name in the key map, then resolves its endpoints there. */
  method CompileRels(rels: seq<RelItem>, base: nat, keymap0: map<string, string>)
    returns (keymap: map<string, string>, creates: seq<Create>)
    ensures keymap == RelKeymap(rels, base, keymap0, |rels|)
    ensures creates == RelCreates(rels, base, keymap0)
  {
    keymap := keymap0;
    creates := [];
    var uniqueNameIndex := base;
    var j := 0;
    while j < |rels|
      invariant 0 <= j <= |rels| && uniqueNameIndex == base + j
      invariant RelsDone(rels, base, keymap0, j, keymap, creates)
    {
      var counter', keymap', creates' := EmitRel(rels[j], uniqueNameIndex, keymap, creates);
      RelsAdvance(rels, base, keymap0, j, uniqueNameIndex, keymap, creates, keymap', creates');
      uniqueNameIndex, keymap, creates := counter', keymap', creates';
      j := j + 1;
    }
    assert creates == RelCreates(rels, base, keymap0)[..|rels|];
  }

  /** `JSONtoStatementList`: the node loop, then the relationship loop, the
      key map and the counter carried from one to the other. */
  method StatementList(s: Snapshot) returns (creates: seq<Create>)
    ensures creates == Compiled(s)
  {
    var nodes := NodesOf(s);
    var rels := RelsOf(s);
    var keymap, nodeCreates := CompileNodes(nodes);
    var _, relCreates := CompileRels(rels, |nodes|, keymap);
    creates := nodeCreates + relCreates;
  }

  /** The shape of the statement list: one record per snapshot entry, nodes
      first; the `i`-th record is named from the shared counter's value `i`
      (`node<i>` or `rel<i>`, so relationships continue the count the nodes
      left off); node records carry no refs, relationship records two. */
  lemma CompiledShape(s: Snapshot)
    ensures |Compiled(s)| == |s|
    ensures forall i :: 0 <= i < |NodesOf(s)| ==> Compiled(s)[i].id == NodeName(i) && Compiled(s)[i].refs == []
    ensures forall i :: |NodesOf(s)| <= i < |Compiled(s)| ==>
              Compiled(s)[i].id == RelName(i) && |Compiled(s)[i].refs| == 2
  {
    FiltersCount(s);
    var nodes := NodesOf(s);
    var n := |nodes|;
    NodeCreatesShape(nodes);
    RelCreatesShape(RelsOf(s), n, NodeKeymap(nodes, n));
    forall i | n <= i < |Compiled(s)|
      ensures Compiled(s)[i].id == RelName(i) && |Compiled(s)[i].refs| == 2
    {
      CompiledRelAt(s, i - n);
    }
  }

  /** The `j`-th relationship's record follows the node records. */
  lemma CompiledRelAt(s: Snapshot, j: nat)
    requires j < |RelsOf(s)|
    ensures Compiled(s)[|NodesOf(s)| + j] == RelCreates(RelsOf(s), |NodesOf(s)|, NodeKeymap(NodesOf(s), |NodesOf(s)|))[j]
  {
  }

  /** No two records share a name: the statements' `RETURN` columns, and the
      names later statements refer to, are unambiguous. */
  lemma IdsDistinct(s: Snapshot)
    ensures forall i, j :: 0 <= i < j < |Compiled(s)| ==> Compiled(s)[i].id != Compiled(s)[j].id
  {
    CompiledShape(s);
    var n := |NodesOf(s)|;
    forall i, j | 0 <= i < j < |Compiled(s)|
      ensures Compiled(s)[i].id != Compiled(s)[j].id
    {
      if j < n {
        SamePrefixNames("node", i, j);
      } else if i < n {
        NamesDistinct("node", "rel", i, j);
      } else {
        SamePrefixNames("rel", i, j);
      }
    }
  }

  /** The last of the first `n` nodes stored under key `k`, if any. */
  function KeyIndex(nodes: seq<NodeItem>, k: string, n: nat): (r: Option<nat>)
    requires n <= |nodes|
    ensures r.Some? ==> r.value < n && nodes[r.value].key == k &&
                        forall i :: r.value < i < n ==> nodes[i].key != k
    ensures r.None? ==> forall i :: 0 <= i < n ==> nodes[i].key != k
  {
    if n == 0 then None
    else if nodes[n - 1].key == k then Some(n - 1)
    else KeyIndex(nodes, k, n - 1)
  }

  /** The name the node loop gave to the node stored under `node_<id>`. */
  function NodeRef(nodes: seq<NodeItem>, id: int): Option<string>
  {
    var r := KeyIndex(nodes, NodeKey(id), |nodes|);
    if r.Some? then Some(NodeName(r.value)) else None
  }

  /** After the node loop the key map sends a key to the name of the last node
      stored under it, and knows no other key. */
  lemma {:induction false} NodeKeymapLookup(nodes: seq<NodeItem>, k: string, n: nat)
    requires n <= |nodes|
    ensures var r := KeyIndex(nodes, k, n);
            Lookup(NodeKeymap(nodes, n), k) == if r.Some? then Some(NodeName(r.value)) else None
  {
    if n > 0 {
      NodeKeymapLookup(nodes, k, n - 1);
    }
  }

  /** The relationship loop leaves the entries of other keys as they were. */
  lemma {:induction false} RelKeymapLookup(rels: seq<RelItem>, base: nat, km: map<string, string>, n: nat, k: string)
    requires n <= |rels|
    requires forall j :: 0 <= j < n ==> rels[j].key != k
    ensures Lookup(RelKeymap(rels, base, km, n), k) == Lookup(km, k)
  {
    if n > 0 {
      RelKeymapLookup(rels, base, km, n - 1, k);
    }
  }

  /** In a well-keyed snapshot the filtered items keep the key of their own
      node or relationship. */
  lemma ItemKeys(s: Snapshot)
    requires WellKeyed(s)
    ensures forall i :: 0 <= i < |NodesOf(s)| ==> NodesOf(s)[i].key == NodeKey(NodesOf(s)[i].node.id)
    ensures forall j :: 0 <= j < |RelsOf(s)| ==> RelsOf(s)[j].key == RelKey(RelsOf(s)[j].rel.id)
  {
    FiltersKeep(s);
    var nodes := NodesOf(s);
    var rels := RelsOf(s);
    forall i | 0 <= i < |nodes|
      ensures nodes[i].key == NodeKey(nodes[i].node.id)
    {
      var e := (nodes[i].key, NodeEntry(nodes[i].labels, nodes[i].node));
      var x :| 0 <= x < |s| && s[x] == e;
    }
    forall j | 0 <= j < |rels|
      ensures rels[j].key == RelKey(rels[j].rel.id)
    {
      var e := (rels[j].key, RelEntry(rels[j].rel));
      var x :| 0 <= x < |s| && s[x] == e;
    }
  }

  /** Distinct snapshot keys stay distinct among the node items. */
  lemma {:induction false} NodeKeysDistinct(s: Snapshot)
    requires NoDups(KeysOf(s))
    ensures forall i, i' :: 0 <= i < i' < |NodesOf(s)| ==> NodesOf(s)[i].key != NodesOf(s)[i'].key
  {
    if |s| > 0 {
      var init := s[..|s| - 1];
      assert KeysOf(init) == KeysOf(s)[..|s| - 1];
      NodeKeysDistinct(init);
      FiltersKeep(init);
      var last := s[|s| - 1];
      if last.1.NodeEntry? {
        var nodes := NodesOf(s);
        var m := |NodesOf(init)|;
        assert nodes == NodesOf(init) + [NodeItem(last.0, last.1.labels, last.1.node)];
        forall i | 0 <= i < m
          ensures nodes[i].key != nodes[m].key
        {
          var e := (NodesOf(init)[i].key, NodeEntry(NodesOf(init)[i].labels, NodesOf(init)[i].node));
          var x :| 0 <= x < |init| && init[x] == e;
          assert KeysOf(s)[x] == nodes[i].key;
          assert KeysOf(s)[|s| - 1] == nodes[m].key;
        }
      }
    }
  }

  /** A relationship's refs are the names of its endpoint nodes as the node
      loop named them, or `undefined` (`None`) for an endpoint the snapshot
      lacks: the relationship keys written in between never shadow a node key. */
  lemma RelRefs(s: Snapshot, j: nat)
    requires WellKeyed(s) && j < |RelsOf(s)|
    ensures var rel := RelsOf(s)[j].rel;
            Compiled(s)[|NodesOf(s)| + j].refs == [NodeRef(NodesOf(s), rel.start), NodeRef(NodesOf(s), rel.end)]
  {
    var nodes := NodesOf(s);
    var rels := RelsOf(s);
    var km := NodeKeymap(nodes, |nodes|);
    var rel := rels[j].rel;
    ItemKeys(s);
    forall k | 0 <= k <= j
      ensures rels[k].key != NodeKey(rel.start) && rels[k].key != NodeKey(rel.end)
    {
      KeysDistinct(rel.start, rels[k].rel.id);
      KeysDistinct(rel.end, rels[k].rel.id);
    }
    RelKeymapLookup(rels, |nodes|, km, j + 1, NodeKey(rel.start));
    RelKeymapLookup(rels, |nodes|, km, j + 1, NodeKey(rel.end));
    NodeKeymapLookup(nodes, NodeKey(rel.start), |nodes|);
    NodeKeymapLookup(nodes, NodeKey(rel.end), |nodes|);
    RelCreateAt(rels, |nodes|, km, j);
    CompiledRelAt(s, j);
  }

  /** When the snapshot's keys are distinct and well kept (as the extractor
      guarantees), the node named `node<i>` is exactly the one whose id is `id`,
      and there is no name when no node has that id. */
  lemma NodeRefSpec(s: Snapshot, id: int)
    requires WellKeyed(s) && NoDups(KeysOf(s))
    ensures forall i :: 0 <= i < |NodesOf(s)| ==>
              (NodeRef(NodesOf(s), id) == Some(NodeName(i)) <==> NodesOf(s)[i].node.id == id)
    ensures NodeRef(NodesOf(s), id) == None <==> forall i :: 0 <= i < |NodesOf(s)| ==> NodesOf(s)[i].node.id != id
  {
    var nodes := NodesOf(s);
    ItemKeys(s);
    NodeKeysDistinct(s);
    var r := KeyIndex(nodes, NodeKey(id), |nodes|);
    forall i | 0 <= i < |nodes|
      ensures NodeRef(nodes, id) == Some(NodeName(i)) <==> nodes[i].node.id == id
    {
      KeysDistinct(nodes[i].node.id, id);
      if r.Some? {
        SamePrefixNames("node", r.value, i);
      }
    }
    forall i | 0 <= i < |nodes|
      ensures nodes[i].key == NodeKey(id) <==> nodes[i].node.id == id
    {
      KeysDistinct(nodes[i].node.id, id);
    }
  }

  /** Length of the text before the first backtick of `t`. */
  function TickIndex(t: string): (k: nat)
    ensures k <= |t| && '`' !in t[..k] && (k < |t| ==> t[k] == '`')
  {
    if |t| == 0 || t[0] == '`' then 0
    else
      var k := TickIndex(t[1..]);
      assert t[..k + 1] == [t[0]] + t[1..][..k];
      k + 1
  }

  /** Reads a label clause back: `:` and a backtick-quoted name, repeated,
      each name ending at the next backtick. */
  function ReadLabels(t: string): Option<seq<string>>
    decreases |t|
  {
    if |t| == 0 then Some([])
    else if |t| < 2 || t[0] != ':' || t[1] != '`' then None
    else
      var k := TickIndex(t[2..]);
      if k == |t| - 2 then None
      else match ReadLabels(t[k + 3..])
        case None => None
        case Some(rest) => Some([t[2..k + 2]] + rest)
  }

  lemma {:induction false} TickIndexAfter(x: string, rest: string)
    requires '`' !in x
    ensures TickIndex(x + "`" + rest) == |x|
  {
    if |x| > 0 {
      assert (x + "`" + rest)[1..] == x[1..] + "`" + rest;
      TickIndexAfter(x[1..], rest);
    }
  }

  lemma LabelClauseFirst(labels: seq<string>)
    requires |labels| > 0
    ensures LabelClause(labels) == ":`" + labels[0] + "`" + LabelClause(labels[1..])
  {
    var parts := seq(|labels|, i requires 0 <= i < |labels| => ":`" + labels[i] + "`");
    assert parts[1..] == seq(|labels[1..]|, i requires 0 <= i < |labels[1..]| => ":`" + labels[1..][i] + "`");
  }

  /** One backtick-free label read off the front of a clause. */
  lemma ReadOneLabel(x: string, tail: string)
    requires '`' !in x
    ensures ReadLabels(":`" + x + "`" + tail)
         == match ReadLabels(tail) case None => None case Some(rest) => Some([x] + rest)
  {
    var t := ":`" + x + "`" + tail;
    assert t[2..] == x + "`" + tail;
    TickIndexAfter(x, tail);
    assert t[|x| + 3..] == tail;
    assert t[2..|x| + 2] == x;
  }

  /** Round trip: as long as no label holds a backtick, the label clause
      reads back as exactly the node's labels, in order. */
  lemma {:induction false} ReadLabelClause(labels: seq<string>)
    requires forall i :: 0 <= i < |labels| ==> '`' !in labels[i]
    ensures ReadLabels(LabelClause(labels)) == Some(labels)
  {
    if |labels| > 0 {
      LabelClauseFirst(labels);
      ReadOneLabel(labels[0], LabelClause(labels[1..]));
      ReadLabelClause(labels[1..]);
      assert [labels[0]] + labels[1..] == labels;
    }
  }

  /** Labels are written unescaped: a label holding a backtick can close its
      quotes early, so the one label "a`:`b" gives the same clause as the two
      labels "a" and "b" (and, in general, can inject Cypher text). */
  lemma LabelClauseCollision(a: string, b: string)
    ensures [a + "`:`" + b] != [a, b]
    ensures LabelClause([a + "`:`" + b]) == LabelClause([a, b])
  {
    LabelClauseFirst([a + "`:`" + b]);
    LabelClauseFirst([a, b]);
    LabelClauseFirst([b]);
    assert LabelClause([a, b][1..][1..]) == "";
    assert LabelClause([a + "`:`" + b][1..]) == "";
  }
}

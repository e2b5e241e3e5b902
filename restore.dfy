/** `restoreTransactional` (seraph-snapshot.js:74-111): the statement list is
    cut into groups of 15 and each group is sent, one after another, as one
    query in a single open transaction; the transaction is then committed.
    Later groups refer to nodes made by earlier ones through the database ids
    the earlier responses returned (`START name=node(id)`).

    The database is a parameter: a function giving the response to a request
    from the requests already sent, which lets it be any deterministic server. */
module Restore {
  import opened Util
  import opened Decimal
  import opened Snapshot
  import opened Compiler
  import opened Script

  /** `stepSize`. */
  const GroupSize: nat := 15

  function Min(a: int, b: int): int
  {
    if a < b then a else b
  }

  /** The statements cut into consecutive groups of 15, the last group holding
      whatever remains. */
  function Groups(cs: seq<Create>): seq<seq<Create>>
  {
    seq((|cs| + 14) / 15, k requires 0 <= k < (|cs| + 14) / 15 => cs[15 * k .. Min(15 * k + 15, |cs|)])
  }

  /** The `for` loop that fills `groups`. */
  method MakeGroups(cs: seq<Create>) returns (groups: seq<seq<Create>>)
    ensures groups == Groups(cs)
  {
    groups := [];
    var i := 0;
    while i < |cs|
      invariant i == 15 * |groups| && |groups| <= (|cs| + 14) / 15
      invariant forall k :: 0 <= k < |groups| ==> groups[k] == cs[15 * k .. Min(15 * k + 15, |cs|)]
    {
      groups := groups + [cs[i .. Min(i + 15, |cs|)]];
      i := i + 15;
    }
    assert |groups| == |Groups(cs)|;
  }

  lemma GroupsFront(cs: seq<Create>)
    requires |cs| > 0
    ensures Groups(cs) == [cs[..Min(15, |cs|)]] + Groups(cs[Min(15, |cs|)..])
  {
    var m := Min(15, |cs|);
    var rest := cs[m..];
    assert |Groups(cs)| == 1 + |Groups(rest)|;
    forall k | 0 <= k < |Groups(rest)|
      ensures Groups(cs)[k + 1] == Groups(rest)[k]
    {
      assert cs[15 * (k + 1) .. Min(15 * (k + 1) + 15, |cs|)] == rest[15 * k .. Min(15 * k + 15, |rest|)];
    }
  }

  /** The groups hold the whole statement list, in order and nothing else;
      each holds 1 to 15 statements, all but the last exactly 15. */
  lemma {:induction false} GroupsSpec(cs: seq<Create>)
    ensures Concat(Groups(cs)) == cs
    ensures |Groups(cs)| == (|cs| + 14) / 15
    ensures forall k :: 0 <= k < |Groups(cs)| ==> 1 <= |Groups(cs)[k]| <= GroupSize
    ensures forall k :: 0 <= k < |Groups(cs)| - 1 ==> |Groups(cs)[k]| == GroupSize
    decreases |cs|
  {
    if |cs| > 0 {
      GroupsFront(cs);
      var m := Min(15, |cs|);
      GroupsSpec(cs[m..]);
      assert cs[..m] + cs[m..] == cs;
    }
  }

  /** The one-shot script and the transactional restore create the same
      patterns in the same order: the script's `CREATE` list is the groups'
      `CREATE` lists joined by commas. */
  lemma {:induction false} CreateListGroups(cs: seq<Create>)
    ensures CreateList(cs) == Join(",", seq(|Groups(cs)|, k requires 0 <= k < |Groups(cs)| => CreateList(Groups(cs)[k])))
    decreases |cs|
  {
    var parts := seq(|Groups(cs)|, k requires 0 <= k < |Groups(cs)| => CreateList(Groups(cs)[k]));
    if |cs| > 0 {
      GroupsFront(cs);
      var m := Min(15, |cs|);
      var rest := cs[m..];
      CreateListGroups(rest);
      var restParts := seq(|Groups(rest)|, k requires 0 <= k < |Groups(rest)| => CreateList(Groups(rest)[k]));
      var head := CreateList(cs[..m]);
      assert parts == [head] + restParts;
      assert Join(",", [head]) == head;
      if |rest| > 0 {
        assert cs == cs[..m] + rest;
        CreateListSplit(cs[..m], rest);
        assert |restParts| > 0;
        JoinSplit(",", [head], restParts);
        assert Join(",", parts) == head + "," + Join(",", restParts);
        assert CreateList(rest) == Join(",", restParts);
        assert CreateList(cs) == head + "," + CreateList(rest);
      } else {
        assert cs[..m] == cs;
        assert restParts == [];
      }
    }
  }

  /** `JSONtoCypher` and `restoreTransactional` agree: the script's pattern
      list is the patterns the restore sends, group after group. */
  lemma ScriptMatchesRestore(s: Snapshot)
    ensures Cypher(s) == "CREATE " + Join(",", seq(|Groups(Compiled(s))|, k requires 0 <= k < |Groups(Compiled(s))| =>
                                              CreateList(Groups(Compiled(s))[k])))
  {
    CreateListGroups(Compiled(s));
  }

  /** `nodeMap`: a result column name to the value the response row held in
      that column (`undefined`, `None`, past the row's end). */
  type NodeMap = map<string, Option<int>>

  /** The text of a node-map lookup inside a template string: the id, or
      `undefined` when the key is missing or its id is not known. */
  function NodeIdText(nm: NodeMap, key: string): string
  {
    if key in nm && nm[key].Some? then ShowInt(nm[key].value) else "undefined"
  }

  /** The start clause binding a reference to the node with the id the node map
      holds for it; the reference is looked up by its text. */
  function Binding(ref: Option<string>, nm: NodeMap): string
  {
    RefText(ref) + "=node(" + NodeIdText(nm, RefText(ref)) + ")"
  }

  /** The references of every statement of a group, in order, flattened into
      one list. */
  function GroupRefs(g: seq<Create>): seq<Option<string>>
  {
    Concat(seq(|g|, i requires 0 <= i < |g| => g[i].refs))
  }

  /** The start clauses of a group: each distinct reference once, in order of
      first use, bound to its node and separated by commas. */
  function StartList(g: seq<Create>, nm: NodeMap): string
  {
    var refs := Uniq(GroupRefs(g));
    Join(",", seq(|refs|, k requires 0 <= k < |refs| => Binding(refs[k], nm)))
  }

  /** `id(name) as name` for each record, joined by commas. */
  function ReturnList(g: seq<Create>): string
  {
    Join(",", seq(|g|, i requires 0 <= i < |g| => "id(" + g[i].id + ") as " + g[i].id))
  }

  /** The `CREATE` and `RETURN` clauses of a group's query. */
  function QueryTail(g: seq<Create>): string
  {
    " CREATE " + CreateList(g) + " RETURN " + ReturnList(g)
  }

  /** The query sent for one group. */
  function GroupQuery(g: seq<Create>, nm: NodeMap): string
  {
    var start := StartList(g, nm);
    (if start != "" then "START " + start else "") + QueryTail(g)
  }

  predicate EndsWith(s: string, t: string)
  {
    |t| <= |s| && s[|s| - |t|..] == t
  }

  /** The `START` clause appears exactly when some record of the group has a
      ref, and then binds each distinct ref once, in order of first use. */
  lemma StartListSpec(g: seq<Create>, nm: NodeMap)
    ensures StartList(g, nm) == "" <==> GroupRefs(g) == []
    ensures var refs := Uniq(GroupRefs(g));
            NoDups(refs) && (forall r :: r in refs <==> r in GroupRefs(g)) &&
            StartList(g, nm) == Join(",", seq(|refs|, k requires 0 <= k < |refs| => Binding(refs[k], nm)))
  {
    var refs := Uniq(GroupRefs(g));
    UniqSpec(GroupRefs(g));
    var bindings := seq(|refs|, k requires 0 <= k < |refs| => Binding(refs[k], nm));
    forall k | 0 <= k < |bindings|
      ensures bindings[k] != ""
    {
      assert |bindings[k]| >= |"=node("|;
    }
    JoinEmptyIff(",", bindings);
    if GroupRefs(g) != [] {
      assert GroupRefs(g)[0] in refs;
    }
  }

  /** The first group is sent with an empty `nodeMap`, so each of its refs,
      even one naming a node created earlier in that very group, is bound to
      `node(undefined)`. */
  lemma FirstGroupUnbound(g: seq<Create>)
    ensures var refs := Uniq(GroupRefs(g));
            StartList(g, map[]) == Join(",", seq(|refs|, k requires 0 <= k < |refs| => RefText(refs[k]) + "=node(undefined)"))
  {
    var refs := Uniq(GroupRefs(g));
    forall k | 0 <= k < |refs|
      ensures Binding(refs[k], map[]) == RefText(refs[k]) + "=node(undefined)"
    {
      var empty: NodeMap := map[];
      assert RefText(refs[k]) !in empty;
    }
    assert seq(|refs|, k requires 0 <= k < |refs| => Binding(refs[k], map[]))
        == seq(|refs|, k requires 0 <= k < |refs| => RefText(refs[k]) + "=node(undefined)");
  }

  /** `vals[i]`: the row's value, or `undefined` past its end. */
  function Cell(row: seq<int>, i: nat): Option<int>
  {
    if i < |row| then Some(row[i]) else None
  }

  /** The node map after the first `n` columns of a response row have been
      recorded, each column name mapped to the value at its position. */
  function Record(nm: NodeMap, columns: seq<string>, row: seq<int>, n: nat): NodeMap
    requires n <= |columns|
  {
    if n == 0 then nm else Record(nm, columns, row, n - 1)[columns[n - 1] := Cell(row, n - 1)]
  }

  /** The column loop of the response callback. */
  method RecordColumns(nodeMap: NodeMap, columns: seq<string>, row: seq<int>) returns (nm: NodeMap)
    ensures nm == Record(nodeMap, columns, row, |columns|)
  {
    nm := nodeMap;
    var i := 0;
    while i < |columns|
      invariant 0 <= i <= |columns| && nm == Record(nodeMap, columns, row, i)
    {
      nm := nm[columns[i] := if i < |row| then Some(row[i]) else None];
      i := i + 1;
    }
  }

  /** The column loop adds the columns to the node map's keys. */
  lemma {:induction false} RecordKeys(nm: NodeMap, columns: seq<string>, row: seq<int>, n: nat)
    requires n <= |columns|
    ensures forall k :: k in Record(nm, columns, row, n) <==> k in nm || k in columns[..n]
  {
    if n > 0 {
      RecordKeys(nm, columns, row, n - 1);
      assert columns[..n] == columns[..n - 1] + [columns[n - 1]];
    }
  }

  /** It keeps the entries of the keys that are not columns. */
  lemma {:induction false} RecordKeeps(nm: NodeMap, columns: seq<string>, row: seq<int>, n: nat, k: string)
    requires n <= |columns| && k in nm && k !in columns[..n]
    ensures k in Record(nm, columns, row, n) && Record(nm, columns, row, n)[k] == nm[k]
  {
    if n > 0 {
      assert columns[..n] == columns[..n - 1] + [columns[n - 1]];
      RecordKeeps(nm, columns, row, n - 1, k);
    }
  }

  /** It gives each column the row's value in that column, the later column
      winning when a name repeats. */
  lemma {:induction false} RecordSets(nm: NodeMap, columns: seq<string>, row: seq<int>, n: nat, i: nat)
    requires i < n <= |columns| && columns[i] !in columns[i + 1..n]
    ensures columns[i] in Record(nm, columns, row, n) && Record(nm, columns, row, n)[columns[i]] == Cell(row, i)
  {
    if i < n - 1 {
      var later := columns[i + 1..n];
      assert later == columns[i + 1..n - 1] + [columns[n - 1]];
      assert columns[i] != columns[n - 1] && columns[i] !in columns[i + 1..n - 1];
      RecordSets(nm, columns, row, n - 1, i);
    }
  }

  /** A POST request to the database: the endpoint and the statement texts. */
  datatype Request = Request(endpoint: string, statements: seq<string>)

  /** What `db.call` hands its callback: an error, or the first result's
      columns, its first data row and the transaction's location path (the
      part after the server's endpoint). */
  datatype Response = Failure(error: string) | Success(columns: seq<string>, row: seq<int>, location: string)

  /** The answer to a request, given the requests sent before it. */
  type Db = (seq<Request>, Request) -> Response

  /** What the final callback receives. */
  datatype Outcome = Failed(error: string) | Committed

  /** The variables the group loop updates. `txn` is `undefined` (`None`)
      until set; `!txn` also holds for the empty string. */
  datatype LoopState = LoopState(txn: Option<string>, nodeMap: NodeMap)

  predicate HasTxn(txn: Option<string>)
  {
    txn.Some? && txn.value != ""
  }

  /** `txn || 'transaction'`. */
  function Endpoint(txn: Option<string>): string
  {
    if HasTxn(txn) then txn.value else "transaction"
  }

  /** The commit endpoint: the transaction location followed by `/commit`. */
  function CommitEndpoint(txn: Option<string>): string
  {
    RefText(txn) + "/commit"
  }

  /** The loop state after a successful response. */
  function Absorb(st: LoopState, columns: seq<string>, row: seq<int>, location: string): LoopState
  {
    LoopState(if HasTxn(st.txn) then st.txn else Some(location), Record(st.nodeMap, columns, row, |columns|))
  }

  /** The request for one group: its query, to `txn || 'transaction'`. */
  function GroupRequest(st: LoopState, g: seq<Create>): Request
  {
    Request(Endpoint(st.txn), [GroupQuery(g, st.nodeMap)])
  }

  /** A request that posts one query whose `CREATE` and `RETURN` clauses are
      those of group `g`. */
  predicate SendsGroup(req: Request, g: seq<Create>)
  {
    |req.statements| == 1 && EndsWith(req.statements[0], QueryTail(g))
  }

  lemma GroupRequestSendsGroup(st: LoopState, g: seq<Create>)
    ensures SendsGroup(GroupRequest(st, g), g)
  {
    var start := StartList(g, st.nodeMap);
    var q := GroupQuery(g, st.nodeMap);
    assert q == (if start != "" then "START " + start else "") + QueryTail(g);
  }

  /** The requests a series sends, the error that stopped it if any, and the
      loop state at its end. */
  datatype Run = Run(requests: seq<Request>, error: Option<string>, state: LoopState)

  /** What the iterator given to `async.forEachSeries` sends for a group,
      from the loop state it has reached; the restore's is `GroupRequest`. */
  type Step = (LoopState, seq<Create>) -> Request

  /** `async.forEachSeries` over `groups`, after the requests `history`: each
      group is sent after the previous one succeeded; the first error ends
      the series. */
  function RunGroups(step: Step, groups: seq<seq<Create>>, db: Db, history: seq<Request>, st: LoopState): (r: Run)
    ensures |r.requests| <= |groups|
    ensures |groups| > 0 ==> |r.requests| > 0
    decreases |groups|
  {
    if |groups| == 0 then Run([], None, st)
    else
      var req := step(st, groups[0]);
      match db(history, req)
      case Failure(e) => Run([req], Some(e), st)
      case Success(columns, row, location) =>
        var rest := RunGroups(step, groups[1..], db, history + [req], Absorb(st, columns, row, location));
        Run([req] + rest.requests, rest.error, rest.state)
  }

  const Start := LoopState(None, map[])

  datatype Restored = Restored(sent: seq<Request>, outcome: Outcome)

  /** The whole restore: the group series, then, unless it failed, the commit
      with an empty statement list. */
  function Restore(s: Snapshot, db: Db): Restored
  {
    var run := RunGroups(GroupRequest, Groups(Compiled(s)), db, [], Start);
    if run.error.Some? then Restored(run.requests, Failed(run.error.value))
    else
      var req := Request(CommitEndpoint(run.state.txn), []);
      match db(run.requests, req)
      case Failure(e) => Restored(run.requests + [req], Failed(e))
      case Success(_, _, _) => Restored(run.requests + [req], Committed)
  }

  /** Lines 86-89: the query for one group. */
  method BuildQuery(g: seq<Create>, nodeMap: NodeMap) returns (query: string)
    ensures query == GroupQuery(g, nodeMap)
  {
    var start := StartList(g, nodeMap);
    query := if start != "" then "START " + start else "";
    query := query + " CREATE " + CreateList(g);
    query := query + " RETURN " + ReturnList(g);
    assert query == (if start != "" then "START " + start else "") + QueryTail(g);
  }

  /** Lines 86-91: the request for one group, posted to
      `txn || 'transaction'`. */
  method BuildRequest(txn: Option<string>, nodeMap: NodeMap, g: seq<Create>) returns (req: Request)
    ensures req == GroupRequest(LoopState(txn, nodeMap), g)
  {
    var query := BuildQuery(g, nodeMap);
    var endpoint := if txn.Some? && txn.value != "" then txn.value else "transaction";
    req := Request(endpoint, [query]);
  }

  /** One step of the series: the first group's request, then either its
      error or the rest of the series from the updated state. */
  lemma RunFirst(step: Step, groups: seq<seq<Create>>, db: Db, history: seq<Request>, st: LoopState)
    requires |groups| > 0
    ensures var req := step(st, groups[0]);
            var response := db(history, req);
            RunGroups(step, groups, db, history, st)
              == if response.Failure? then Run([req], Some(response.error), st)
                 else
                   var rest := RunGroups(step, groups[1..], db, history + [req],
                                         Absorb(st, response.columns, response.row, response.location));
                   Run([req] + rest.requests, rest.error, rest.state)
  {
  }

  /** The series from group `i` on: group `i`'s request, then the rest. */
  lemma RunAt(step: Step, groups: seq<seq<Create>>, i: nat, db: Db, history: seq<Request>, st: LoopState)
    requires i < |groups|
    ensures var req := step(st, groups[i]);
            var response := db(history, req);
            RunGroups(step, groups[i..], db, history, st)
              == if response.Failure? then Run([req], Some(response.error), st)
                 else
                   var rest := RunGroups(step, groups[i + 1..], db, history + [req],
                                         Absorb(st, response.columns, response.row, response.location));
                   Run([req] + rest.requests, rest.error, rest.state)
  {
    RunFirst(step, groups[i..], db, history, st);
    assert groups[i..][1..] == groups[i + 1..];
  }

  lemma AppendOne<T>(a: seq<T>, x: T, b: seq<T>)
    ensures a + ([x] + b) == (a + [x]) + b
  {
  }

  /** The loop's invariant: the requests `sent` so far, followed by the
      series from group `i` on, make up the whole series `whole`. */
  predicate SeriesFrom(whole: Run, step: Step, groups: seq<seq<Create>>, i: nat, db: Db, sent: seq<Request>,
                       st: LoopState)
    requires i <= |groups|
  {
    var rest := RunGroups(step, groups[i..], db, sent, st);
    whole == Run(sent + rest.requests, rest.error, rest.state)
  }

  /** A group answered with success moves the series on by one group. */
  lemma SeriesAdvance(whole: Run, step: Step, groups: seq<seq<Create>>, i: nat, db: Db, sent: seq<Request>,
                      st: LoopState, req: Request, st': LoopState)
    requires i < |groups| && SeriesFrom(whole, step, groups, i, db, sent, st)
    requires req == step(st, groups[i]) && db(sent, req).Success?
    requires st' == Absorb(st, db(sent, req).columns, db(sent, req).row, db(sent, req).location)
    ensures SeriesFrom(whole, step, groups, i + 1, db, sent + [req], st')
  {
    RunAt(step, groups, i, db, sent, st);
    AppendOne(sent, req, RunGroups(step, groups[i + 1..], db, sent + [req], st').requests);
  }

  /** A group answered with an error ends the series there. */
  lemma SeriesFail(whole: Run, step: Step, groups: seq<seq<Create>>, i: nat, db: Db, sent: seq<Request>,
                   st: LoopState, req: Request)
    requires i < |groups| && SeriesFrom(whole, step, groups, i, db, sent, st)
    requires req == step(st, groups[i]) && db(sent, req).Failure?
    ensures whole == Run(sent + [req], Some(db(sent, req).error), st)
  {
    RunAt(step, groups, i, db, sent, st);
  }

  /** Once every group is sent the series is over. */
  lemma SeriesEnd(whole: Run, step: Step, groups: seq<seq<Create>>, db: Db, sent: seq<Request>, st: LoopState)
    requires SeriesFrom(whole, step, groups, |groups|, db, sent, st)
    ensures whole == Run(sent, None, st)
  {
    assert groups[|groups|..] == [];
    assert sent + [] == sent;
  }

  /** Lines 97-102: a successful response sets `txn` unless it is already
      set, and records the returned columns in `nodeMap`. */
  method AbsorbResponse(txn: Option<string>, nodeMap: NodeMap, response: Response)
    returns (txn': Option<string>, nodeMap': NodeMap)
    requires response.Success?
    ensures LoopState(txn', nodeMap') == Absorb(LoopState(txn, nodeMap), response.columns, response.row, response.location)
  {
    txn' := txn;
    if !(txn.Some? && txn.value != "") {
      txn' := Some(response.location);
    }
    nodeMap' := RecordColumns(nodeMap, response.columns, response.row);
  }

  /** The `async.forEachSeries` loop: builds each group's query, sends it to
      `txn || 'transaction'`, stops at the first error, and otherwise sets
      `txn` if unset and records the returned columns. */
  method SendGroups(groups: seq<seq<Create>>, db: Db)
    returns (sent: seq<Request>, error: Option<string>, txn: Option<string>, nodeMap: NodeMap)
    ensures Run(sent, error, LoopState(txn, nodeMap)) == RunGroups(GroupRequest, groups, db, [], Start)
  {
    ghost var whole := RunGroups(GroupRequest, groups, db, [], Start);
    nodeMap := map[];
    txn := None;
    sent := [];
    var i := 0;
    assert groups[0..] == groups;
    while i < |groups|
      invariant 0 <= i <= |groups|
      invariant SeriesFrom(whole, GroupRequest, groups, i, db, sent, LoopState(txn, nodeMap))
    {
      ghost var st := LoopState(txn, nodeMap);
      var req := BuildRequest(txn, nodeMap, groups[i]);
      var response := db(sent, req);
      if response.Failure? {
        SeriesFail(whole, GroupRequest, groups, i, db, sent, st, req);
        sent := sent + [req];
        error := Some(response.error);
        return;
      }
      txn, nodeMap := AbsorbResponse(txn, nodeMap, response);
      SeriesAdvance(whole, GroupRequest, groups, i, db, sent, st, req, LoopState(txn, nodeMap));
      sent := sent + [req];
      i := i + 1;
    }
    SeriesEnd(whole, GroupRequest, groups, db, sent, LoopState(txn, nodeMap));
    error := None;
  }

  /** `restoreTransactional`: compile, group, send the groups, then commit
      unless a group failed. */
  method RestoreTransactional(s: Snapshot, db: Db) returns (sent: seq<Request>, outcome: Outcome)
    ensures Restored(sent, outcome) == Restore(s, db)
  {
    var statements := StatementList(s);
    var groups := MakeGroups(statements);
    var error, txn, nodeMap;
    sent, error, txn, nodeMap := SendGroups(groups, db);
    if error.Some? {
      outcome := Failed(error.value);
      return;
    }
    var commit := Request(RefText(txn) + "/commit", []);
    var response := db(sent, commit);
    sent := sent + [commit];
    outcome := if response.Failure? then Failed(response.error) else Committed;
  }

  lemma PrefixAfterOne<T>(history: seq<T>, x: T, rest: seq<T>, k: nat)
    requires 0 < k <= |rest| + 1
    ensures history + ([x] + rest)[..k] == (history + [x]) + rest[..k - 1]
    ensures ([x] + rest)[k - 1] == if k == 1 then x else rest[k - 2]
  {
    assert ([x] + rest)[..k] == [x] + rest[..k - 1];
  }

  /** The series goes on exactly while the responses succeed: without an
      error every group was sent; with one, the last request sent is the one
      that failed, with that error. */
  lemma {:induction false} RunStops(step: Step, groups: seq<seq<Create>>, db: Db, history: seq<Request>, st: LoopState)
    ensures var r := RunGroups(step, groups, db, history, st);
            (r.error.None? ==> |r.requests| == |groups|) &&
            (r.error.Some? ==> db(history + r.requests[..|r.requests| - 1], r.requests[|r.requests| - 1])
                                 == Failure(r.error.value))
    decreases |groups|
  {
    if |groups| > 0 {
      var req := step(st, groups[0]);
      var r := RunGroups(step, groups, db, history, st);
      match db(history, req)
      case Failure(e) =>
        assert history + r.requests[..0] == history;
      case Success(columns, row, location) =>
        var st' := Absorb(st, columns, row, location);
        var rest := RunGroups(step, groups[1..], db, history + [req], st');
        RunStops(step, groups[1..], db, history + [req], st');
        if r.error.Some? {
          PrefixAfterOne(history, req, rest.requests, |r.requests| - 1);
        }
    }
  }

  /** Every request of the series but a failing last one was answered with
      success. */
  lemma {:induction false} RunSucceeds(step: Step, groups: seq<seq<Create>>, db: Db, history: seq<Request>,
                                       st: LoopState, k: nat)
    requires var r := RunGroups(step, groups, db, history, st);
             k < |r.requests| && (r.error.None? || k < |r.requests| - 1)
    ensures var r := RunGroups(step, groups, db, history, st);
            db(history + r.requests[..k], r.requests[k]).Success?
    decreases |groups|
  {
    var req := step(st, groups[0]);
    var r := RunGroups(step, groups, db, history, st);
    match db(history, req)
    case Failure(e) =>
    case Success(columns, row, location) =>
      var st' := Absorb(st, columns, row, location);
      var rest := RunGroups(step, groups[1..], db, history + [req], st');
      assert r.requests == [req] + rest.requests && r.error == rest.error;
      if k == 0 {
        assert history + r.requests[..0] == history;
      } else {
        RunSucceeds(step, groups[1..], db, history + [req], st', k - 1);
        PrefixAfterOne(history, req, rest.requests, k);
        assert r.requests[k] == rest.requests[k - 1];
      }
  }

  /** The `k`-th request of the series is the step's request for the `k`-th
      group, from the state the series had reached. */
  lemma {:induction false} RunSendsGroups(step: Step, groups: seq<seq<Create>>, db: Db, history: seq<Request>,
                                          st: LoopState)
    requires forall st': LoopState, g: seq<Create> :: SendsGroup(step(st', g), g)
    ensures var r := RunGroups(step, groups, db, history, st);
            forall k :: 0 <= k < |r.requests| ==> SendsGroup(r.requests[k], groups[k])
    decreases |groups|
  {
    if |groups| > 0 {
      var req := step(st, groups[0]);
      match db(history, req)
      case Failure(e) =>
      case Success(columns, row, location) =>
        var st' := Absorb(st, columns, row, location);
        RunSendsGroups(step, groups[1..], db, history + [req], st');
    }
  }

  /** Every request `GroupRequest` builds posts its group's query. */
  lemma GroupRequestsSendGroups()
    ensures forall st: LoopState, g: seq<Create> :: SendsGroup(GroupRequest(st, g), g)
  {
    forall st: LoopState, g: seq<Create>
      ensures SendsGroup(GroupRequest(st, g), g)
    {
      GroupRequestSendsGroup(st, g);
    }
  }

  /** Once `txn` holds a transaction it is never replaced, and every request
      of the series goes to it. */
  lemma {:induction false} TxnKept(step: Step, groups: seq<seq<Create>>, db: Db, history: seq<Request>, st: LoopState)
    requires forall st': LoopState, g: seq<Create> :: step(st', g).endpoint == Endpoint(st'.txn)
    requires HasTxn(st.txn)
    ensures var r := RunGroups(step, groups, db, history, st);
            r.state.txn == st.txn && forall k :: 0 <= k < |r.requests| ==> r.requests[k].endpoint == st.txn.value
    decreases |groups|
  {
    if |groups| > 0 {
      var req := step(st, groups[0]);
      match db(history, req)
      case Failure(e) =>
      case Success(columns, row, location) =>
        var st' := Absorb(st, columns, row, location);
        TxnKept(step, groups[1..], db, history + [req], st');
    }
  }

  /** The first group opens the transaction at `transaction`; the location of
      the first response becomes `txn`, and later groups go there. An empty
      location leaves `txn` unset, so the next group opens a transaction
      again. */
  lemma TxnFromFirstResponse(groups: seq<seq<Create>>, db: Db)
    requires |groups| > 0
    ensures var r := RunGroups(GroupRequest, groups, db, [], Start);
            r.requests[0].endpoint == "transaction" &&
            match db([], r.requests[0])
            case Failure(_) => |r.requests| == 1
            case Success(_, _, location) =>
              (location != "" ==> (r.error.None? ==> r.state.txn == Some(location)) &&
                                  forall k :: 1 <= k < |r.requests| ==> r.requests[k].endpoint == location) &&
              (location == "" && |r.requests| > 1 ==> r.requests[1].endpoint == "transaction")
  {
    var req := GroupRequest(Start, groups[0]);
    var r := RunGroups(GroupRequest, groups, db, [], Start);
    RunFirst(GroupRequest, groups, db, [], Start);
    match db([], req)
    case Failure(_) =>
    case Success(columns, row, location) =>
      var st' := Absorb(Start, columns, row, location);
      var rest := RunGroups(GroupRequest, groups[1..], db, [req], st');
      assert [] + [req] == [req];
      assert r.requests == [req] + rest.requests;
      if location != "" {
        TxnKept(GroupRequest, groups[1..], db, [req], st');
      } else if |groups| > 1 {
        RunFirst(GroupRequest, groups[1..], db, [req], st');
      }
  }

  /** A failing group ends the restore before any commit is sent, and its
      error is the outcome. */
  lemma RestoreFails(s: Snapshot, db: Db)
    ensures var run := RunGroups(GroupRequest, Groups(Compiled(s)), db, [], Start);
            var r := Restore(s, db);
            run.error.Some? ==>
              r.outcome == Failed(run.error.value) && r.sent == run.requests &&
              db(r.sent[..|r.sent| - 1], r.sent[|r.sent| - 1]) == Failure(run.error.value) &&
              forall k :: 0 <= k < |r.sent| ==> |r.sent[k].statements| == 1
  {
    var groups := Groups(Compiled(s));
    var run := RunGroups(GroupRequest, groups, db, [], Start);
    if run.error.Some? {
      assert |groups| > 0;
      RunStops(GroupRequest, groups, db, [], Start);
      assert [] + run.requests[..|run.requests| - 1] == run.requests[..|run.requests| - 1];
      GroupRequestsSendGroups();
      RunSendsGroups(GroupRequest, groups, db, [], Start);
    }
  }

  /** Without a failing group, one request per group is followed by the
      commit to the transaction's commit endpoint with no statements, and the outcome is the
      commit's. */
  lemma RestoreCommits(s: Snapshot, db: Db)
    ensures var run := RunGroups(GroupRequest, Groups(Compiled(s)), db, [], Start);
            var r := Restore(s, db);
            var n := |Groups(Compiled(s))|;
            run.error.None? ==>
              |r.sent| == n + 1 && r.sent[..n] == run.requests &&
              r.sent[n] == Request(CommitEndpoint(run.state.txn), []) &&
              (r.outcome == Committed <==> db(r.sent[..n], r.sent[n]).Success?)
  {
    var groups := Groups(Compiled(s));
    var run := RunGroups(GroupRequest, groups, db, [], Start);
    RunStops(GroupRequest, groups, db, [], Start);
    if run.error.None? {
      var r := Restore(s, db);
      assert r.sent[..|groups|] == run.requests;
    }
  }

  /** An empty snapshot sends no group and commits `undefined/commit`. */
  lemma EmptyRestore(s: Snapshot, db: Db)
    requires |s| == 0
    ensures Restore(s, db).sent == [Request("undefined/commit", [])]
  {
    FiltersCount(s);
    assert |Compiled(s)| == 0;
    assert Groups(Compiled(s)) == [];
    assert CommitEndpoint(None) == "undefined/commit";
  }
}

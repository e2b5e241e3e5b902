/** `JSONtoCypher` (seraph-snapshot.js:113-115): the whole snapshot as one
    Cypher `CREATE` query, the statements of the statement list separated by
    commas. */
module Script {
  import opened Util
  import opened Snapshot
  import opened Compiler

  /** The statements of a list of records, joined by commas: the pattern list
      after `CREATE`. */
  function CreateList(cs: seq<Create>): string
  {
    Join(",", seq(|cs|, i requires 0 <= i < |cs| => cs[i].statement))
  }

  function Cypher(s: Snapshot): string
  {
    "CREATE " + CreateList(Compiled(s))
  }

  /** The list of a concatenation is the two lists with one comma between. */
  lemma CreateListSplit(a: seq<Create>, b: seq<Create>)
    requires |a| > 0 && |b| > 0
    ensures CreateList(a + b) == CreateList(a) + "," + CreateList(b)
  {
    var sa := seq(|a|, i requires 0 <= i < |a| => a[i].statement);
    var sb := seq(|b|, i requires 0 <= i < |b| => b[i].statement);
    assert seq(|a + b|, i requires 0 <= i < |a + b| => (a + b)[i].statement) == sa + sb;
    JoinSplit(",", sa, sb);
  }
}

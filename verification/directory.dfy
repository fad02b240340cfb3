/** The persisted `nodes` table (columns node_id, token, components,
    information, resource, active) and the CRUD layer of src/models/Node.js.
    The SQL engine is an abstract keyed store: a map from node_id to the other
    columns, plus the next id the store will hand out. Every `run` of a
    statement may fail; the `ok` argument says whether it succeeded. */
module Directory {

  /** One row of `nodes`, without its key. */
  datatype NodeRow = NodeRow(
    token: string,
    components: string,
    information: string,
    resource: string,
    active: int)

  /** A row as `SELECT *` returns it: the key together with the columns. */
  datatype Row = Row(nodeId: nat, node: NodeRow)

  /** The table. `next` is the id the store assigns to the next insert. */
  datatype Table = Table(rows: map<nat, NodeRow>, next: nat)

  /** What `run` reports for a statement that only writes. */
  datatype Written = Written(table: Table, success: bool)

  /** What `run` reports for a SELECT. */
  datatype Query = Query(success: bool, results: seq<Row>)

  /** The WHERE clauses the source uses. */
  datatype Where = TokenIs(token: string) | IdIs(id: nat)

  /** Every stored key lies below the next key to be assigned. */
  predicate Valid(t: Table) {
    forall id :: id in t.rows ==> id < t.next
  }

  /** No two rows share a token. The table does not enforce this; the
      generator makes a clash unlikely. */
  predicate TokensUnique(t: Table) {
    forall a, b :: a in t.rows && b in t.rows && t.rows[a].token == t.rows[b].token ==> a == b
  }

  predicate Matches(w: Where, id: nat, row: NodeRow) {
    match w
    case TokenIs(token) => row.token == token
    case IdIs(key) => id == key
  }

  /** The key the store assigns to the next inserted row. */
  function NewId(t: Table): nat {
    t.next
  }

  /** The rows whose key lies in [lo, hi) and that satisfy `w`,
      in ascending key order. */
  function Scan(rows: map<nat, NodeRow>, w: Where, lo: nat, hi: nat): (r: seq<Row>)
    decreases hi - lo
    ensures forall i :: 0 <= i < |r| ==>
      && lo <= r[i].nodeId < hi
      && r[i].nodeId in rows
      && rows[r[i].nodeId] == r[i].node
      && Matches(w, r[i].nodeId, r[i].node)
    ensures forall id :: lo <= id < hi && id in rows && Matches(w, id, rows[id]) ==>
      Row(id, rows[id]) in r
    ensures forall i, j :: 0 <= i < j < |r| ==> r[i].nodeId < r[j].nodeId
  {
    if lo >= hi then []
    else if lo in rows && Matches(w, lo, rows[lo]) then
      [Row(lo, rows[lo])] + Scan(rows, w, lo + 1, hi)
    else
      Scan(rows, w, lo + 1, hi)
  }

  /** The rows selected by `w`: exactly the matching rows, each once, in
      ascending node_id order (the order of a SQLite table scan; the SQL
      text has no ORDER BY). */
  function Select(t: Table, w: Where): (r: seq<Row>)
    requires Valid(t)
    ensures forall i :: 0 <= i < |r| ==>
      r[i].nodeId in t.rows && t.rows[r[i].nodeId] == r[i].node && Matches(w, r[i].nodeId, r[i].node)
    ensures forall id :: id in t.rows && Matches(w, id, t.rows[id]) ==> Row(id, t.rows[id]) in r
    ensures forall i, j :: 0 <= i < j < |r| ==> r[i].nodeId < r[j].nodeId
  {
    Scan(t.rows, w, 0, t.next)
  }

  /** Runs a SELECT. A failed run returns nothing; a run that matched no
      row reports no success, which is how the handlers read it. */
  function Run(t: Table, w: Where, ok: bool): (q: Query)
    requires Valid(t)
    ensures q.success <==> ok && exists id :: id in t.rows && Matches(w, id, t.rows[id])
    ensures !ok ==> q.results == []
    ensures ok ==> q.results == Select(t, w)
  {
    var rows := Select(t, w);
    if ok && |rows| > 0 then
      assert rows[0].nodeId in t.rows && Matches(w, rows[0].nodeId, t.rows[rows[0].nodeId]);
      Query(true, rows)
    else if ok then
      assert forall id :: id in t.rows && Matches(w, id, t.rows[id]) ==> Row(id, t.rows[id]) in rows;
      Query(false, rows)
    else Query(false, [])
  }

  /** `Node.create`: INSERT INTO nodes (token, components, information,
      resource, active) VALUES (?, ?, ?, ?, 0). The caller does not supply
      node_id; the store assigns a key no existing row has. */
  function Create(t: Table, token: string, components: string, information: string,
                  resource: string, ok: bool): (r: Written)
    requires Valid(t)
    ensures Valid(r.table)
    ensures r.success == ok
    ensures !ok ==> r.table == t
    ensures ok ==>
      && NewId(t) !in t.rows
      && r.table.rows.Keys == t.rows.Keys + {NewId(t)}
      && r.table.rows[NewId(t)] == NodeRow(token, components, information, resource, 0)
      && forall id :: id in t.rows ==> r.table.rows[id] == t.rows[id]
  {
    if ok then
      Written(Table(t.rows[t.next := NodeRow(token, components, information, resource, 0)], t.next + 1), true)
    else
      Written(t, false)
  }

  /** `Node.getByToken`: SELECT * FROM nodes WHERE token = ?. */
  function GetByToken(t: Table, token: string, ok: bool): (q: Query)
    requires Valid(t)
    ensures ok ==> forall i :: 0 <= i < |q.results| ==>
      q.results[i].nodeId in t.rows && t.rows[q.results[i].nodeId] == q.results[i].node &&
      q.results[i].node.token == token
    ensures ok ==> forall id :: id in t.rows && t.rows[id].token == token ==>
      Row(id, t.rows[id]) in q.results
    ensures ok ==> forall i, j :: 0 <= i < j < |q.results| ==> q.results[i].nodeId < q.results[j].nodeId
    ensures q.success <==> ok && exists id :: id in t.rows && t.rows[id].token == token
    ensures !ok ==> q.results == []
  {
    Run(t, TokenIs(token), ok)
  }

  /** `Node.getById`: SELECT * FROM nodes WHERE node_id = ?. The key is
      unique, so at most the one row comes back. */
  function GetById(t: Table, primaryKey: nat, ok: bool): (q: Query)
    requires Valid(t)
    ensures ok && primaryKey in t.rows ==> q == Query(true, [Row(primaryKey, t.rows[primaryKey])])
    ensures ok && primaryKey !in t.rows ==> q == Query(false, [])
    ensures !ok ==> q == Query(false, [])
  {
    var q := Run(t, IdIs(primaryKey), ok);
    if ok then
      SelectById(t, primaryKey);
      q
    else q
  }

  /** A scan over a range holding no matching row returns nothing. */
  lemma {:induction false} ScanNone(rows: map<nat, NodeRow>, w: Where, lo: nat, hi: nat)
    requires lo <= hi
    requires forall id :: lo <= id < hi && id in rows ==> !Matches(w, id, rows[id])
    ensures Scan(rows, w, lo, hi) == []
    decreases hi - lo
  {
    if lo < hi {
      ScanNone(rows, w, lo + 1, hi);
    }
  }

  /** A scan over a range holding exactly one matching row returns that row
      alone. */
  lemma {:induction false} ScanSingle(rows: map<nat, NodeRow>, w: Where, lo: nat, hi: nat, key: nat)
    requires lo <= key < hi && key in rows && Matches(w, key, rows[key])
    requires forall id :: lo <= id < hi && id in rows && Matches(w, id, rows[id]) ==> id == key
    ensures Scan(rows, w, lo, hi) == [Row(key, rows[key])]
    decreases hi - lo
  {
    if lo == key {
      ScanNone(rows, w, lo + 1, hi);
    } else {
      ScanSingle(rows, w, lo + 1, hi, key);
    }
  }

  /** Selecting by key returns the keyed row alone, or nothing. */
  lemma SelectById(t: Table, key: nat)
    requires Valid(t)
    ensures Select(t, IdIs(key)) == if key in t.rows then [Row(key, t.rows[key])] else []
  {
    if key in t.rows {
      ScanSingle(t.rows, IdIs(key), 0, t.next, key);
    } else {
      ScanNone(t.rows, IdIs(key), 0, t.next);
    }
  }

  /** `Node.update`: UPDATE nodes SET components = ?, information = ?
      WHERE node_id = ?. An UPDATE that matches no row still succeeds. */
  function Update(t: Table, components: string, information: string, nodeId: nat,
                  ok: bool): (r: Written)
    requires Valid(t)
    ensures Valid(r.table)
    ensures r.success == ok
    ensures r.table.next == t.next
    ensures r.table.rows.Keys == t.rows.Keys
    ensures forall id :: id in t.rows && (id != nodeId || !ok) ==> r.table.rows[id] == t.rows[id]
    ensures ok && nodeId in t.rows ==>
      var old_ := t.rows[nodeId];
      var new_ := r.table.rows[nodeId];
      && new_.components == components
      && new_.information == information
      && new_.token == old_.token
      && new_.resource == old_.resource
      && new_.active == old_.active
  {
    if ok && nodeId in t.rows then
      Written(Table(t.rows[nodeId := t.rows[nodeId].(components := components, information := information)], t.next), true)
    else
      Written(t, ok)
  }

  /** `Node.delete`: DELETE FROM nodes WHERE node_id = ?. */
  function Delete(t: Table, nodeId: nat, ok: bool): (r: Written)
    requires Valid(t)
    ensures Valid(r.table)
    ensures r.success == ok
    ensures r.table.next == t.next
    ensures r.table.rows.Keys == if ok then t.rows.Keys - {nodeId} else t.rows.Keys
    ensures forall id :: id in r.table.rows ==> r.table.rows[id] == t.rows[id]
  {
    if ok then Written(Table(t.rows - {nodeId}, t.next), true)
    else Written(t, false)
  }

  /** A created row is found again by its token, carrying the given fields
      and active = 0; when no earlier row had that token it is the only
      result. */
  lemma {:induction false} CreateThenGetByToken(t: Table, token: string, components: string,
                                                information: string, resource: string)
    requires Valid(t)
    ensures var t' := Create(t, token, components, information, resource, true).table;
      && GetByToken(t', token, true).success
      && Row(NewId(t), NodeRow(token, components, information, resource, 0)) in GetByToken(t', token, true).results
    ensures (forall id :: id in t.rows ==> t.rows[id].token != token) ==>
      var t' := Create(t, token, components, information, resource, true).table;
      GetByToken(t', token, true) == Query(true, [Row(NewId(t), NodeRow(token, components, information, resource, 0))])
  {
    var t' := Create(t, token, components, information, resource, true).table;
    var row := NodeRow(token, components, information, resource, 0);
    assert t'.rows[NewId(t)] == row;
    if forall id :: id in t.rows ==> t.rows[id].token != token {
      ScanSingle(t'.rows, TokenIs(token), 0, t'.next, NewId(t));
    }
  }
}

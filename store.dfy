/**
 * The database layer of `hub-api/internal/database/db.go` as an object: the
 * `nodes` table is a field the methods update in place. The SQL server is
 * otherwise abstract: which statements fail (by kind and node id) and which
 * queries fail are fixed when the store is made.
 */
module Store {
  import opened Wrappers
  import opened NodeIds
  import opened Model
  import opened Browse
  import opened Table
  import opened Hierarchy

  /** The kinds of statement the layer issues, each against one node id. */
  datatype Statement =
    | UpsertStatement
    | SetRemovedStatement
    | DisableHistoryStatement
    | SetHistoryStatement
    | SetIncludedStatement

  /** The three SELECTs: the live hierarchy, the classified listing, the pending rows. */
  /**
   * The queries that can fail. `PendingRowsRead` is a failure while reading
   * the rows of the pending query: the row cursor reports no row and the
   * error is left in the cursor, which `IsTelegrafUpToDate` never inspects.
   */
  datatype Query = HierarchyQuery | HistoryQuery | PendingQuery | PendingRowsRead

  datatype DbError = StatementFailed(statement: Statement, nodeId: string) | QueryFailed(query: Query)

  /**
   * Why storing a walked tree stops: a statement failed, or the printed NodeId
   * could not be parsed back, which dereferences nil in the source.
   */
  datatype InsertError = InsertFailed(cause: DbError) | Panicked(nodeId: string)

  /**
   * Whether storing this node ends the walk's insertion: its NodeId does not
   * parse (it is empty or holds a newline) or its upsert fails.
   */
  predicate Aborts(n: Node, failing: set<(Statement, string)>) {
    n.nodeId == [] || '\n' in n.nodeId || (UpsertStatement, n.nodeId) in failing
  }

  /** The position of the first node whose storing fails, or the length when none does. */
  function FirstAbort(nodes: seq<Node>, failing: set<(Statement, string)>): (k: nat)
    ensures k <= |nodes|
  {
    if nodes == [] then 0
    else if Aborts(nodes[0], failing) then 0
    else 1 + FirstAbort(nodes[1..], failing)
  }

  /** Every node before the first-failure position is stored, and the node at it fails. */
  lemma {:induction false} FirstAbortMeaning(nodes: seq<Node>, failing: set<(Statement, string)>)
    ensures forall i :: 0 <= i < FirstAbort(nodes, failing) ==> !Aborts(nodes[i], failing)
    ensures FirstAbort(nodes, failing) < |nodes| ==> Aborts(nodes[FirstAbort(nodes, failing)], failing)
    decreases |nodes|
  {
    if nodes != [] && !Aborts(nodes[0], failing) {
      FirstAbortMeaning(nodes[1..], failing);
      forall i | 0 < i < FirstAbort(nodes, failing) ensures !Aborts(nodes[i], failing) {
        assert nodes[i] == nodes[1..][i - 1];
      }
    }
  }

  /** Whether this node's `SetDatabaseNodeStates` update fails. */
  predicate UpdateFails(n: Node, failing: set<(Statement, string)>) {
    (n.dbActionRequired == Added || n.dbActionRequired == Removed)
    && (SetIncludedStatement, n.nodeId) in failing
  }

  /** The position of the first node whose update fails, or the length when none does. */
  function FirstFailingUpdate(nodes: seq<Node>, failing: set<(Statement, string)>): (k: nat)
    ensures k <= |nodes|
    ensures forall i :: 0 <= i < k ==> !UpdateFails(nodes[i], failing)
    ensures k < |nodes| ==> UpdateFails(nodes[k], failing)
  {
    if nodes == [] then 0
    else if UpdateFails(nodes[0], failing) then 0
    else 1 + FirstFailingUpdate(nodes[1..], failing)
  }

  /** The first failing update is fixed by its two defining properties. */
  lemma FirstFailingUpdateUnique(nodes: seq<Node>, failing: set<(Statement, string)>, k: nat)
    requires k <= |nodes|
    requires forall i :: 0 <= i < k ==> !UpdateFails(nodes[i], failing)
    requires k < |nodes| ==> UpdateFails(nodes[k], failing)
    ensures FirstFailingUpdate(nodes, failing) == k
  {
    if k > 0 {
      assert nodes[1..][..k - 1] == nodes[1..k];
      FirstFailingUpdateUnique(nodes[1..], failing, k - 1);
    }
  }

  /**
   * Part way through reading the rows of `GetHistoryNodes`: `ids` are the
   * rows read so far, each once, `nodes` their classified nodes, and
   * `remaining` the rows still to come.
   */
  ghost predicate ListedSoFar(t: Table, remaining: set<string>, ids: seq<string>, nodes: seq<Node>) {
    && remaining <= t.rows.Keys
    && |nodes| == |ids|
    && |ids| + |remaining| == |t.rows.Keys|
    && (forall i :: 0 <= i < |ids| ==> ids[i] in t.rows && ids[i] !in remaining && nodes[i] == HistoryNode(t.rows[ids[i]]))
    && (forall i, j :: 0 <= i < j < |ids| ==> ids[i] != ids[j])
    && (forall k :: k in t.rows && k !in remaining ==> k in ids)
  }

  lemma ListedStep(t: Table, remaining: set<string>, ids: seq<string>, nodes: seq<Node>, k: string)
    requires ListedSoFar(t, remaining, ids, nodes) && k in remaining
    ensures ListedSoFar(t, remaining - {k}, ids + [k], nodes + [HistoryNode(t.rows[k])])
  {
  }

  /** Once every row is read, the nodes are a listing of the whole table. */
  lemma ListedAll(t: Table, ids: seq<string>, nodes: seq<Node>)
    requires ValidTable(t) && ListedSoFar(t, {}, ids, nodes)
    ensures IsHistoryListing(t, nodes)
  {
    assert |t.rows.Keys| == |t.rows|;
    forall i | 0 <= i < |nodes| ensures nodes[i].nodeId == ids[i] {
      assert ValidRow(ids[i], t.rows[ids[i]]);
    }
    forall k | k in t.rows
      ensures exists i :: 0 <= i < |nodes| && nodes[i].nodeId == k
    {
      var i :| 0 <= i < |ids| && ids[i] == k;
      assert nodes[i].nodeId == k;
    }
  }

  /** The rows of the `LoadHierarchy` query: the live rows, each once, in browse-name order. */
  ghost predicate LiveInOrder(t: Table, snapshot: seq<string>) {
    && Distinct(snapshot)
    && (forall k :: k in snapshot <==> k in LiveIds(t))
    && (forall p :: 0 <= p < |snapshot| ==> snapshot[p] in t.rows)
    && (forall p, q :: 0 <= p < q < |snapshot| ==>
          LexLe(t.rows[snapshot[p]].browseName, t.rows[snapshot[q]].browseName))
  }

  /**
   * Part way through sorting the live rows: `snapshot` holds the rows taken
   * so far, once each, in browse-name order, none of them after a row still
   * in `remaining`.
   */
  ghost predicate SelectedSoFar(t: Table, remaining: set<string>, snapshot: seq<string>) {
    && remaining <= LiveIds(t)
    && (forall k :: k in snapshot <==> k in LiveIds(t) && k !in remaining)
    && (forall p :: 0 <= p < |snapshot| ==> snapshot[p] in t.rows)
    && Distinct(snapshot)
    && (forall p, q :: 0 <= p < q < |snapshot| ==>
          LexLe(t.rows[snapshot[p]].browseName, t.rows[snapshot[q]].browseName))
    && (forall p, l :: 0 <= p < |snapshot| && l in remaining ==>
          LexLe(t.rows[snapshot[p]].browseName, t.rows[l].browseName))
  }

  /** Taking a row that sorts first among those remaining keeps the taken rows in order. */
  lemma SelectStep(t: Table, remaining: set<string>, snapshot: seq<string>, k: string)
    requires SelectedSoFar(t, remaining, snapshot) && k in remaining
    requires forall l :: l in remaining ==> LexLe(t.rows[k].browseName, t.rows[l].browseName)
    ensures SelectedSoFar(t, remaining - {k}, snapshot + [k])
  {
  }

  /** The nodes loaded from the first i rows of the query. */
  ghost predicate LoadedPrefix(t: Table, snapshot: seq<string>, i: nat, nodes: map<string, Node>)
    requires i <= |snapshot|
  {
    && (forall k :: k in nodes <==> k in snapshot[..i])
    && (forall k :: k in nodes ==> k in t.rows && nodes[k] == HierarchyNode(t.rows[k]))
  }

  /** The roots found in the first i rows of the query: the self-parented ones, once each. */
  ghost predicate RootsPrefix(t: Table, snapshot: seq<string>, i: nat, roots: seq<string>)
    requires i <= |snapshot|
  {
    && Distinct(roots)
    && (forall a :: 0 <= a < |roots| ==> roots[a] in snapshot[..i] && roots[a] in t.rows && IsRoot(t, roots[a]))
    && (forall k :: k in snapshot[..i] && k in t.rows && IsRoot(t, k) ==> k in roots)
  }

  /** The roots found so far are in browse-name order and sort no later than any row still to come. */
  ghost predicate RootsOrdered(t: Table, snapshot: seq<string>, i: nat, roots: seq<string>) {
    && (forall a, b :: 0 <= a < b < |roots| && roots[a] in t.rows && roots[b] in t.rows ==>
          LexLe(t.rows[roots[a]].browseName, t.rows[roots[b]].browseName))
    && (forall a, q :: 0 <= a < |roots| && i <= q < |snapshot| && roots[a] in t.rows && snapshot[q] in t.rows ==>
          LexLe(t.rows[roots[a]].browseName, t.rows[snapshot[q]].browseName))
  }

  /**
   * Part way through scanning the rows of `LoadHierarchy`: the first i rows
   * are loaded, and the self-parented ones among them are the roots, in
   * order, and sort no later than any row still to come.
   */
  ghost predicate ScannedSoFar(t: Table, snapshot: seq<string>, i: nat, nodes: map<string, Node>, roots: seq<string>) {
    && LiveInOrder(t, snapshot)
    && i <= |snapshot|
    && LoadedPrefix(t, snapshot, i, nodes)
    && RootsPrefix(t, snapshot, i, roots)
    && RootsOrdered(t, snapshot, i, roots)
  }

  lemma LoadedStep(t: Table, snapshot: seq<string>, i: nat, nodes: map<string, Node>)
    requires ValidTable(t) && LiveInOrder(t, snapshot) && i < |snapshot| && LoadedPrefix(t, snapshot, i, nodes)
    ensures var n := HierarchyNode(t.rows[snapshot[i]]);
      LoadedPrefix(t, snapshot, i + 1, nodes[n.nodeId := n])
  {
    var k := snapshot[i];
    assert ValidRow(k, t.rows[k]);
    assert snapshot[..i + 1] == snapshot[..i] + [k];
  }

  lemma RootsStep(t: Table, snapshot: seq<string>, i: nat, roots: seq<string>)
    requires ValidTable(t) && LiveInOrder(t, snapshot) && i < |snapshot| && RootsPrefix(t, snapshot, i, roots)
    ensures var n := HierarchyNode(t.rows[snapshot[i]]);
      RootsPrefix(t, snapshot, i + 1, if n.nodeId == n.parentId then roots + [n.nodeId] else roots)
  {
    var k := snapshot[i];
    assert ValidRow(k, t.rows[k]);
    assert snapshot[..i + 1] == snapshot[..i] + [k];
    assert k !in snapshot[..i];
    if IsRoot(t, k) {
      var grown := roots + [k];
      forall a | 0 <= a < |grown|
        ensures grown[a] in snapshot[..i + 1] && grown[a] in t.rows && IsRoot(t, grown[a])
      {
        if a < |roots| {
          assert grown[a] == roots[a];
        }
      }
      assert RootsPrefix(t, snapshot, i + 1, grown);
    } else {
      assert RootsPrefix(t, snapshot, i + 1, roots);
    }
  }

  lemma OrderStep(t: Table, snapshot: seq<string>, i: nat, roots: seq<string>)
    requires ValidTable(t) && LiveInOrder(t, snapshot) && i < |snapshot| && RootsOrdered(t, snapshot, i, roots)
    ensures var n := HierarchyNode(t.rows[snapshot[i]]);
      RootsOrdered(t, snapshot, i + 1, if n.nodeId == n.parentId then roots + [n.nodeId] else roots)
  {
    var k := snapshot[i];
    assert ValidRow(k, t.rows[k]);
  }

  lemma ScanStep(t: Table, snapshot: seq<string>, i: nat, nodes: map<string, Node>, roots: seq<string>)
    requires ValidTable(t) && ScannedSoFar(t, snapshot, i, nodes, roots) && i < |snapshot|
    ensures var n := HierarchyNode(t.rows[snapshot[i]]);
      ScannedSoFar(t, snapshot, i + 1, nodes[n.nodeId := n], if n.nodeId == n.parentId then roots + [n.nodeId] else roots)
  {
    LoadedStep(t, snapshot, i, nodes);
    RootsStep(t, snapshot, i, roots);
    OrderStep(t, snapshot, i, roots);
  }

  /** After the scan the loaded nodes are the live rows and the roots are all the live self-parented ones. */
  lemma ScanDone(t: Table, snapshot: seq<string>, nodes: map<string, Node>, roots: seq<string>)
    requires ScannedSoFar(t, snapshot, |snapshot|, nodes, roots)
    ensures nodes.Keys == LiveIds(t)
    ensures forall k :: k in nodes ==> nodes[k] == HierarchyNode(t.rows[k])
    ensures Distinct(roots)
    ensures forall k :: k in roots ==> k in LiveIds(t) && IsRoot(t, k)
    ensures forall k :: k in LiveIds(t) && IsRoot(t, k) ==> k in roots
    ensures forall a, b :: 0 <= a < b < |roots| ==> LexLe(t.rows[roots[a]].browseName, t.rows[roots[b]].browseName)
  {
    assert snapshot[..|snapshot|] == snapshot;
  }

  /** The nodes `LoadHierarchy` loaded: one per live row, scanned from it. */
  ghost predicate LoadedLive(t: Table, nodes: map<string, Node>) {
    && nodes.Keys == LiveIds(t)
    && (forall k :: k in nodes ==> nodes[k] == HierarchyNode(t.rows[k]))
  }

  /** Every listed child is a child of its list's owner and has been visited. */
  ghost predicate ChildrenSound(t: Table, pending: set<string>, children: map<string, seq<string>>) {
    && (forall x :: x in children ==> Distinct(children[x]))
    && (forall x, c :: x in children && c in children[x] ==> IsChildOf(t, c, x) && c !in pending)
  }

  /** Every visited child is listed under its parent. */
  ghost predicate ChildrenComplete(t: Table, pending: set<string>, children: map<string, seq<string>>) {
    forall x, c :: x in children && c in LiveIds(t) && IsChildOf(t, c, x) && c !in pending ==> c in children[x]
  }

  /**
   * Part way through linking the loaded nodes: every visited node that is
   * not a root sits, once, in the children list of its loaded parent, and
   * nothing else does.
   */
  ghost predicate LinkedSoFar(t: Table, nodes: map<string, Node>, pending: set<string>, children: map<string, seq<string>>) {
    && LoadedLive(t, nodes)
    && pending <= nodes.Keys
    && children.Keys == nodes.Keys
    && ChildrenSound(t, pending, children)
    && ChildrenComplete(t, pending, children)
  }

  lemma LinkStart(t: Table, nodes: map<string, Node>)
    requires LoadedLive(t, nodes)
    ensures LinkedSoFar(t, nodes, nodes.Keys, map k | k in nodes :: [])
  {
  }

  /** Appending a visited child to its parent's list keeps the lists sound. */
  lemma SoundStep(t: Table, pending: set<string>, children: map<string, seq<string>>, c: string, p: string)
    requires ChildrenSound(t, pending, children) && c in pending && p in children && IsChildOf(t, c, p)
    ensures ChildrenSound(t, pending - {c}, children[p := children[p] + [c]])
  {
    var children' := children[p := children[p] + [c]];
    assert c !in children[p];
    forall x | x in children' ensures Distinct(children'[x]) {
      if x == p {
        assert Distinct(children[p] + [c]);
      }
    }
    forall x, d | x in children' && d in children'[x]
      ensures IsChildOf(t, d, x) && d !in pending - {c}
    {
      if x == p && d != c {
        assert d in children[x];
      }
    }
  }

  /** Appending a visited child to its parent's list keeps the lists complete. */
  lemma CompleteStep(t: Table, pending: set<string>, children: map<string, seq<string>>, c: string, p: string)
    requires ChildrenComplete(t, pending, children) && p in children && IsChildOf(t, c, p)
    ensures ChildrenComplete(t, pending - {c}, children[p := children[p] + [c]])
  {
  }

  /** Visiting a root or an orphan links nothing. */
  lemma SkipStep(t: Table, pending: set<string>, children: map<string, seq<string>>, c: string)
    requires ChildrenSound(t, pending, children) && ChildrenComplete(t, pending, children)
    requires forall x :: x in children ==> !IsChildOf(t, c, x)
    ensures ChildrenSound(t, pending - {c}, children) && ChildrenComplete(t, pending - {c}, children)
  {
  }

  lemma LinkStep(t: Table, nodes: map<string, Node>, pending: set<string>, children: map<string, seq<string>>, c: string)
    requires ValidTable(t) && LinkedSoFar(t, nodes, pending, children) && c in pending
    ensures var n := nodes[c];
      LinkedSoFar(t, nodes, pending - {c},
        if n.parentId != n.nodeId && n.parentId in nodes then children[n.parentId := children[n.parentId] + [c]] else children)
  {
    assert ValidRow(c, t.rows[c]);
    var n := nodes[c];
    if n.parentId != n.nodeId && n.parentId in nodes {
      SoundStep(t, pending, children, c, n.parentId);
      CompleteStep(t, pending, children, c, n.parentId);
    } else {
      SkipStep(t, pending, children, c);
    }
  }

  /** The scanned roots and nodes with the linked children make a hierarchy of the table. */
  lemma HierarchyBuilt(t: Table, snapshot: seq<string>, nodes: map<string, Node>, roots: seq<string>, children: map<string, seq<string>>)
    requires ScannedSoFar(t, snapshot, |snapshot|, nodes, roots)
    requires LinkedSoFar(t, nodes, {}, children)
    ensures IsHierarchyOf(t, Hierarchy(roots, nodes, children))
  {
    ScanDone(t, snapshot, nodes, roots);
  }

  class NodeStore {
    var table: Table
    const failingStatements: set<(Statement, string)>
    const failingQueries: set<Query>

    ghost predicate Valid()
      reads this
    {
      ValidTable(table)
    }

    /** An empty `nodes` table on a server whose failures are given. */
    constructor (failingStatements: set<(Statement, string)>, failingQueries: set<Query>)
      ensures Valid() && table == EmptyTable()
      ensures this.failingStatements == failingStatements && this.failingQueries == failingQueries
    {
      table := EmptyTable();
      this.failingStatements := failingStatements;
      this.failingQueries := failingQueries;
    }

    /** `InsertOrUpdateNode`: the upsert, or an error with the table untouched. */
    method InsertOrUpdateNode(n: Node) returns (r: Outcome<DbError>)
      requires Valid()
      modifies this
      ensures Valid()
      ensures (UpsertStatement, n.nodeId) in failingStatements ==>
        r == Fail(StatementFailed(UpsertStatement, n.nodeId)) && table == old(table)
      ensures (UpsertStatement, n.nodeId) !in failingStatements ==>
        r == Pass && table == Upsert(old(table), n)
    {
      if (UpsertStatement, n.nodeId) in failingStatements {
        return Fail(StatementFailed(UpsertStatement, n.nodeId));
      }
      UpsertValid(table, n);
      table := Upsert(table, n);
      return Pass;
    }

    /**
     * `MarkNodeAsRemoved`: two separate updates, `removed = 1` and then
     * `history_enabled = 0`. A failure of the first is only logged; the
     * error returned is that of the second.
     */
    method MarkNodeAsRemoved(id: string) returns (r: Outcome<DbError>)
      requires Valid()
      modifies this
      ensures Valid()
      ensures var marked := if (SetRemovedStatement, id) in failingStatements then old(table)
                            else SetFlag(old(table), RemovedColumn, id, 1);
        table == if (DisableHistoryStatement, id) in failingStatements then marked
                 else SetFlag(marked, HistoryEnabledColumn, id, 0)
      ensures r.Pass? <==> (DisableHistoryStatement, id) !in failingStatements
    {
      if (SetRemovedStatement, id) !in failingStatements {
        SetFlagValid(table, RemovedColumn, id, 1);
        table := SetFlag(table, RemovedColumn, id, 1);
      }
      if (DisableHistoryStatement, id) in failingStatements {
        return Fail(StatementFailed(DisableHistoryStatement, id));
      }
      SetFlagValid(table, HistoryEnabledColumn, id, 0);
      table := SetFlag(table, HistoryEnabledColumn, id, 0);
      return Pass;
    }

    /** `UpdateNodeHistory`: sets `history_enabled` of the matching row to 1 or 0. */
    method UpdateNodeHistory(id: string, historyEnabled: bool) returns (r: Outcome<DbError>)
      requires Valid()
      modifies this
      ensures Valid()
      ensures (SetHistoryStatement, id) in failingStatements ==>
        r == Fail(StatementFailed(SetHistoryStatement, id)) && table == old(table)
      ensures (SetHistoryStatement, id) !in failingStatements ==>
        r == Pass && table == SetFlag(old(table), HistoryEnabledColumn, id, Flag(historyEnabled))
    {
      if (SetHistoryStatement, id) in failingStatements {
        return Fail(StatementFailed(SetHistoryStatement, id));
      }
      SetFlagValid(table, HistoryEnabledColumn, id, Flag(historyEnabled));
      table := SetFlag(table, HistoryEnabledColumn, id, Flag(historyEnabled));
      return Pass;
    }

    /**
     * `GetHistoryNodes`: every row, classified, in the order the server
     * returns them, which the query leaves open.
     */
    method GetHistoryNodes() returns (r: Result<seq<Node>, DbError>)
      requires Valid()
      ensures r.Failure? <==> HistoryQuery in failingQueries
      ensures r.Success? ==> IsHistoryListing(table, r.value)
    {
      if HistoryQuery in failingQueries {
        return Failure(QueryFailed(HistoryQuery));
      }
      var remaining := table.rows.Keys;
      var nodes: seq<Node> := [];
      ghost var ids: seq<string> := [];
      while remaining != {}
        invariant ListedSoFar(table, remaining, ids, nodes)
        decreases |remaining|
      {
        var k :| k in remaining;
        ListedStep(table, remaining, ids, nodes, k);
        nodes := nodes + [HistoryNode(table.rows[k])];
        ids := ids + [k];
        remaining := remaining - {k};
      }
      ListedAll(table, ids, nodes);
      return Success(nodes);
    }

    /**
     * `IsTelegrafUpToDate`: whether the query for rows with disagreeing flags
     * returns none. A failed read of those rows looks like an empty result,
     * so it reports the table as up to date whatever its rows say.
     */
    method IsTelegrafUpToDate() returns (r: Result<bool, DbError>)
      ensures r.Failure? <==> PendingQuery in failingQueries
      ensures r.Success? && PendingRowsRead in failingQueries ==> r.value
      ensures r.Success? && PendingRowsRead !in failingQueries ==> (r.value <==> UpToDate(table))
    {
      if PendingQuery in failingQueries {
        return Failure(QueryFailed(PendingQuery));
      }
      if PendingRowsRead in failingQueries {
        return Success(true);
      }
      var pending := set k | k in table.rows &&
        ((table.rows[k].historyEnabled == 1 && table.rows[k].includedInConfig == 0)
         || (table.rows[k].historyEnabled == 0 && table.rows[k].includedInConfig == 1));
      if !UpToDate(table) {
        var k :| k in table.rows &&
          ((table.rows[k].historyEnabled == 1 && table.rows[k].includedInConfig == 0)
           || (table.rows[k].historyEnabled == 0 && table.rows[k].includedInConfig == 1));
        assert k in pending;
      }
      return Success(pending == {});
    }

    /**
     * `SetDatabaseNodeStates`: for each node in order, sets
     * `included_in_config` to 1 for Added and to 0 for Removed, and stops at
     * the first update that fails, keeping the updates made before it.
     */
    method SetDatabaseNodeStates(nodes: seq<Node>) returns (r: Outcome<DbError>)
      requires Valid()
      modifies this
      ensures Valid()
      ensures var k := FirstFailingUpdate(nodes, failingStatements);
        && table == ApplyStates(old(table), nodes[..k])
        && (r.Pass? <==> k == |nodes|)
        && (r.Fail? ==> r.error == StatementFailed(SetIncludedStatement, nodes[k].nodeId))
    {
      for i := 0 to |nodes|
        invariant Valid()
        invariant table == ApplyStates(old(table), nodes[..i])
        invariant forall j :: 0 <= j < i ==> !UpdateFails(nodes[j], failingStatements)
      {
        var n := nodes[i];
        assert nodes[..i + 1][..i] == nodes[..i];
        if n.dbActionRequired == Added {
          if (SetIncludedStatement, n.nodeId) in failingStatements {
            FirstFailingUpdateUnique(nodes, failingStatements, i);
            return Fail(StatementFailed(SetIncludedStatement, n.nodeId));
          }
          SetFlagValid(table, IncludedInConfigColumn, n.nodeId, 1);
          table := SetFlag(table, IncludedInConfigColumn, n.nodeId, 1);
        }
        if n.dbActionRequired == Removed {
          if (SetIncludedStatement, n.nodeId) in failingStatements {
            FirstFailingUpdateUnique(nodes, failingStatements, i);
            return Fail(StatementFailed(SetIncludedStatement, n.nodeId));
          }
          SetFlagValid(table, IncludedInConfigColumn, n.nodeId, 0);
          table := SetFlag(table, IncludedInConfigColumn, n.nodeId, 0);
        }
      }
      FirstFailingUpdateUnique(nodes, failingStatements, |nodes|);
      assert nodes[..|nodes|] == nodes;
      return Pass;
    }

    /**
     * The rows of the `LoadHierarchy` query: the live rows, each once, in
     * browse-name order; rows with equal browse names come in an order the
     * server chooses.
     */
    method QueryLiveRows() returns (snapshot: seq<string>)
      requires Valid()
      ensures LiveInOrder(table, snapshot)
    {
      var remaining := LiveIds(table);
      snapshot := [];
      while remaining != {}
        invariant SelectedSoFar(table, remaining, snapshot)
        decreases remaining
      {
        MinBrowseNameExists(table.rows, remaining);
        var k :| k in remaining && forall l :: l in remaining ==> LexLe(table.rows[k].browseName, table.rows[l].browseName);
        SelectStep(table, remaining, snapshot, k);
        snapshot := snapshot + [k];
        remaining := remaining - {k};
      }
    }

    /**
     * `LoadHierarchy`: scans the live rows in browse-name order, keeping
     * each as a node and the self-parented ones as roots; then, visiting the
     * nodes in no particular order, appends each non-root node to the
     * children of its parent when the parent was loaded.
     */
    method LoadHierarchy() returns (r: Result<Hierarchy, DbError>)
      requires Valid()
      ensures r.Failure? <==> HierarchyQuery in failingQueries
      ensures r.Success? ==> IsHierarchyOf(table, r.value)
    {
      if HierarchyQuery in failingQueries {
        return Failure(QueryFailed(HierarchyQuery));
      }
      var snapshot := QueryLiveRows();
      var nodesMap: map<string, Node> := map[];
      var roots: seq<string> := [];
      for i := 0 to |snapshot|
        invariant ScannedSoFar(table, snapshot, i, nodesMap, roots)
      {
        ScanStep(table, snapshot, i, nodesMap, roots);
        var n := HierarchyNode(table.rows[snapshot[i]]);
        nodesMap := nodesMap[n.nodeId := n];
        if n.nodeId == n.parentId {
          roots := roots + [n.nodeId];
        }
      }
      ScanDone(table, snapshot, nodesMap, roots);
      assert LoadedLive(table, nodesMap);

      var children := LinkChildren(nodesMap);
      HierarchyBuilt(table, snapshot, nodesMap, roots, children);
      return Success(Hierarchy(roots, nodesMap, children));
    }

    /**
     * The second loop of `LoadHierarchy`: visiting the loaded nodes in no
     * particular order, appends each non-root node to the children of its
     * parent when the parent was loaded.
     */
    method LinkChildren(nodesMap: map<string, Node>) returns (children: map<string, seq<string>>)
      requires Valid() && LoadedLive(table, nodesMap)
      ensures LinkedSoFar(table, nodesMap, {}, children)
    {
      children := map k | k in nodesMap :: [];
      LinkStart(table, nodesMap);
      var pending := nodesMap.Keys;
      while pending != {}
        invariant LinkedSoFar(table, nodesMap, pending, children)
        decreases pending
      {
        var c :| c in pending;
        LinkStep(table, nodesMap, pending, children, c);
        var n := nodesMap[c];
        if n.parentId != n.nodeId {
          if n.parentId in nodesMap {
            children := children[n.parentId := children[n.parentId] + [c]];
          }
        }
        pending := pending - {c};
      }
    }

    /**
     * `insertNodesRecursively`: stores the walked forest in pre-order, the
     * top-level nodes under `parentId` and every other node under its tree
     * parent's printed NodeId, and returns the nodes stored. The first node
     * whose parse or upsert fails stops everything, with the rows stored
     * before it kept.
     */
    method InsertNodesRecursively(defs: seq<NodeDef>, parentId: string) returns (r: Result<seq<Node>, InsertError>)
      requires Valid()
      modifies this
      ensures Valid()
      ensures StoredUpToFailure(old(table), table, Flatten(defs, parentId), failingStatements, r)
      decreases defs, 1
    {
      var result: seq<Node> := [];
      for i := 0 to |defs|
        invariant Valid()
        invariant result == Flatten(defs[..i], parentId)
        invariant FirstAbort(result, failingStatements) == |result|
        invariant table == UpsertAll(old(table), result)
      {
        var sub := InsertTree(defs, i, parentId);
        SplitAt(defs, i, parentId);
        if sub.Failure? {
          LoopStops(old(table), result, SubtreeNodes(defs[i], parentId), Flatten(defs[i + 1..], parentId), failingStatements);
          return Failure(sub.error);
        }
        LoopContinues(old(table), result, sub.value, failingStatements);
        DefsStep(defs, i, parentId);
        result := result + sub.value;
      }
      assert defs[..|defs|] == defs;
      assert result[..|result|] == result;
      return Success(result);
    }

    /**
     * The body of the loop in `insertNodesRecursively`, for the node at
     * position i: parse its printed NodeId, upsert it, then store its
     * children under it.
     */
    method InsertTree(defs: seq<NodeDef>, i: nat, parentId: string) returns (r: Result<seq<Node>, InsertError>)
      requires Valid() && i < |defs|
      modifies this
      ensures Valid()
      ensures StoredUpToFailure(old(table), table, SubtreeNodes(defs[i], parentId), failingStatements, r)
      decreases defs, 0
    {
      var def := defs[i];
      var printed := NodeIdString(def.nodeId);
      var node := WalkNode(def, parentId);
      ghost var below := Flatten(def.children, printed);
      assert SubtreeNodes(defs[i], parentId) == [node] + below;
      var parts := ParseNodeIdString(printed);
      ParseFailsExactly(printed);
      if parts.Failure? {
        // The source goes on to read the parts through nil.
        r := Failure(Panicked(printed));
        HeadAborts(table, node, below, failingStatements, r);
        return;
      }
      var out := InsertOrUpdateNode(node);
      if out.Fail? {
        r := Failure(InsertFailed(out.error));
        HeadAborts(table, node, below, failingStatements, r);
        return;
      }
      var sub := InsertNodesRecursively(def.children, printed);
      if sub.Failure? {
        r := Failure(sub.error);
      } else {
        r := Success([node] + sub.value);
      }
      HeadStored(old(table), node, below, failingStatements, table, sub, r);
    }
  }

  /** The nodes one walked tree stores: its root, then its children's forest below it. */
  function SubtreeNodes(def: NodeDef, parentId: string): seq<Node> {
    [WalkNode(def, parentId)] + Flatten(def.children, NodeIdString(def.nodeId))
  }

  /** Splitting the forest at position i: what comes before, the node, its subtree, what comes after. */
  lemma SplitAt(defs: seq<NodeDef>, i: nat, parentId: string)
    requires i < |defs|
    ensures Flatten(defs, parentId) == Flatten(defs[..i], parentId) + SubtreeNodes(defs[i], parentId)
      + Flatten(defs[i + 1..], parentId)
  {
    assert defs == defs[..i] + defs[i..];
    FlattenAppend(defs[..i], defs[i..], parentId);
    assert defs[i..][0] == defs[i] && defs[i..][1..] == defs[i + 1..];
  }

  /** The forest up to and including position i flattens to its prefix followed by the subtree at i. */
  lemma DefsStep(defs: seq<NodeDef>, i: nat, parentId: string)
    requires i < |defs|
    ensures Flatten(defs[..i + 1], parentId) == Flatten(defs[..i], parentId) + SubtreeNodes(defs[i], parentId)
  {
    assert defs[..i + 1] == defs[..i] + [defs[i]];
    FlattenAppend(defs[..i], [defs[i]], parentId);
    assert [defs[i]][1..] == [];
  }

  /** When nothing in `done` fails, the first failure of `done + rest` is found in `rest`. */
  lemma {:induction false} NoAbortThen(done: seq<Node>, rest: seq<Node>, failing: set<(Statement, string)>)
    requires FirstAbort(done, failing) == |done|
    ensures FirstAbort(done + rest, failing) == |done| + FirstAbort(rest, failing)
    decreases |done|
  {
    if done == [] {
      assert done + rest == rest;
    } else {
      assert (done + rest)[0] == done[0];
      assert (done + rest)[1..] == done[1..] + rest;
      NoAbortThen(done[1..], rest, failing);
    }
  }

  /** When something in `piece` fails, what follows `piece` does not matter. */
  lemma {:induction false} AbortInPrefix(piece: seq<Node>, later: seq<Node>, failing: set<(Statement, string)>)
    requires FirstAbort(piece, failing) < |piece|
    ensures FirstAbort(piece + later, failing) == FirstAbort(piece, failing)
    decreases |piece|
  {
    assert (piece + later)[0] == piece[0];
    if !Aborts(piece[0], failing) {
      assert (piece + later)[1..] == piece[1..] + later;
      AbortInPrefix(piece[1..], later, failing);
    }
  }

  /** One more tree stored in full: the loop of `insertNodesRecursively` goes on. */
  lemma LoopContinues(t: Table, done: seq<Node>, piece: seq<Node>, failing: set<(Statement, string)>)
    requires FirstAbort(done, failing) == |done| && FirstAbort(piece, failing) == |piece|
    ensures FirstAbort(done + piece, failing) == |done + piece|
    ensures UpsertAll(t, done + piece) == UpsertAll(UpsertAll(t, done), piece[..FirstAbort(piece, failing)])
  {
    StepPasses(done, piece, failing);
    assert piece[..|piece|] == piece;
    UpsertAllAppend(t, done, piece);
  }

  /** A tree stopped part way: the whole forest stops there, whatever follows it. */
  lemma LoopStops(t: Table, done: seq<Node>, piece: seq<Node>, later: seq<Node>, failing: set<(Statement, string)>)
    requires FirstAbort(done, failing) == |done| && FirstAbort(piece, failing) < |piece|
    ensures FirstAbort(done + piece + later, failing) < |done + piece + later|
    ensures UpsertAll(t, (done + piece + later)[..FirstAbort(done + piece + later, failing)])
      == UpsertAll(UpsertAll(t, done), piece[..FirstAbort(piece, failing)])
  {
    var k := FirstAbort(piece, failing);
    var flat := done + piece + later;
    StepFails(flat, done, piece, later, failing);
    var j := FirstAbort(flat, failing);
    PrefixOfConcat(done, piece, later, k);
    var stored := flat[..j];
    assert stored == done + piece[..k];
    UpsertAllAppend(t, done, piece[..k]);
  }

  /** Storing `done` and then `piece` completes when each of them does. */
  lemma StepPasses(done: seq<Node>, piece: seq<Node>, failing: set<(Statement, string)>)
    requires FirstAbort(done, failing) == |done|
    requires FirstAbort(piece, failing) == |piece|
    ensures FirstAbort(done + piece, failing) == |done + piece|
  {
    NoAbortThen(done, piece, failing);
  }

  /** When `done` completes and `piece` stops, everything stops inside `piece`, whatever follows. */
  lemma StepFails(flat: seq<Node>, done: seq<Node>, piece: seq<Node>, later: seq<Node>, failing: set<(Statement, string)>)
    requires flat == done + piece + later
    requires FirstAbort(done, failing) == |done|
    requires FirstAbort(piece, failing) < |piece|
    ensures FirstAbort(flat, failing) == |done| + FirstAbort(piece, failing)
  {
    var rest := piece + later;
    AbortInPrefix(piece, later, failing);
    Regroup(done, piece, later);
    NoAbortThen(done, rest, failing);
  }

  /** Storing a node and then a prefix of what follows it, as one prefix. */
  lemma StoredHeadThen(t: Table, n: Node, rest: seq<Node>, k: nat)
    requires k <= |rest|
    ensures UpsertAll(t, ([n] + rest)[..1 + k]) == UpsertAll(Upsert(t, n), rest[..k])
  {
    assert ([n] + rest)[..1 + k] == [n] + rest[..k];
    UpsertAllAppend(t, [n], rest[..k]);
    assert [n][..0] == [];
  }

  lemma Regroup(a: seq<Node>, b: seq<Node>, c: seq<Node>)
    ensures a + b + c == a + (b + c)
  {
  }

  lemma PrefixOfConcat(done: seq<Node>, piece: seq<Node>, later: seq<Node>, k: nat)
    requires k <= |piece|
    ensures (done + piece + later)[..|done| + k] == done + piece[..k]
  {
  }

  /**
   * What storing `piece` node by node does to the table `before`: every node
   * ahead of the first failing one is upserted and nothing after it, the
   * outcome is a success exactly when no node fails, and a success returns
   * `piece` itself.
   */
  ghost predicate StoredUpToFailure(before: Table, after: Table, piece: seq<Node>, failing: set<(Statement, string)>,
                                    r: Result<seq<Node>, InsertError>)
  {
    var k := FirstAbort(piece, failing);
    && after == UpsertAll(before, piece[..k])
    && (r.Success? <==> k == |piece|)
    && (r.Success? ==> r.value == piece)
  }

  /** The first node fails, so nothing is stored. */
  lemma HeadAborts(t: Table, n: Node, rest: seq<Node>, failing: set<(Statement, string)>, r: Result<seq<Node>, InsertError>)
    requires Aborts(n, failing) && r.Failure?
    ensures StoredUpToFailure(t, t, [n] + rest, failing, r)
  {
    assert ([n] + rest)[0] == n;
    assert ([n] + rest)[..0] == [];
  }

  /** The first node is stored, so how storing the rest ends decides how the whole ends. */
  lemma HeadStored(t: Table, n: Node, rest: seq<Node>, failing: set<(Statement, string)>, after: Table,
                   sub: Result<seq<Node>, InsertError>, r: Result<seq<Node>, InsertError>)
    requires !Aborts(n, failing)
    requires StoredUpToFailure(Upsert(t, n), after, rest, failing, sub)
    requires r.Success? <==> sub.Success?
    requires r.Success? ==> r.value == [n] + sub.value
    ensures StoredUpToFailure(t, after, [n] + rest, failing, r)
  {
    assert ([n] + rest)[0] == n;
    assert ([n] + rest)[1..] == rest;
    var k := FirstAbort(rest, failing);
    assert FirstAbort([n] + rest, failing) == 1 + k;
    StoredHeadThen(t, n, rest, k);
  }
}

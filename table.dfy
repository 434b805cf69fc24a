/**
 * The `nodes` table of `hub-api/internal/database/db.go` as a value: a map
 * from `node_id` (the table's unique key) to the row stored under it, with
 * the statements the database layer issues against it written as functions
 * on that value. The flag columns are SQL integers; the layer only ever
 * stores 0 or 1 in them, which `ValidTable` records.
 */
module Table {
  import opened NodeIds
  import opened Model
  import opened Browse

  /** One row of `nodes`; `last_updated` is not modelled. */
  datatype Row = Row(
    id: nat,
    nodeId: string,
    namespace: int,
    identifierType: string,
    identifier: string,
    parentId: string,
    browseName: string,
    nodeClass: string,
    dataType: string,
    writable: bool,
    nodePath: string,
    removed: int,
    historyEnabled: int,
    includedInConfig: int)

  /** The rows by `node_id`, and the next value of the auto-increment `id` column. */
  datatype Table = Table(rows: map<string, Row>, nextId: nat)

  /** How a Go `bool` is stored in an INT column. */
  function Flag(b: bool): (v: int)
    ensures v == 0 || v == 1
    ensures v == 1 <==> b
  {
    if b then 1 else 0
  }

  predicate IsFlag(v: int) {
    v == 0 || v == 1
  }

  predicate ValidRow(key: string, r: Row) {
    r.nodeId == key && IsFlag(r.removed) && IsFlag(r.historyEnabled) && IsFlag(r.includedInConfig)
  }

  /** Rows are stored under their own `node_id`, flags are 0 or 1, and ids are distinct and below `nextId`. */
  predicate ValidTable(t: Table) {
    && (forall k :: k in t.rows ==> ValidRow(k, t.rows[k]) && t.rows[k].id < t.nextId)
    && (forall k, l :: k in t.rows && l in t.rows && k != l ==> t.rows[k].id != t.rows[l].id)
  }

  function EmptyTable(): (t: Table)
    ensures ValidTable(t) && t.rows == map[]
  {
    Table(map[], 1)
  }

  /**
   * `InsertOrUpdateNode`: `INSERT ... ON DUPLICATE KEY UPDATE`. A new
   * `node_id` gets a new row; an existing one keeps its id, namespace,
   * identifier type and identifier, and takes every other column from the
   * node, both flags and `removed` included.
   */
  function Upsert(t: Table, n: Node): (t': Table)
    ensures t'.rows.Keys == t.rows.Keys + {n.nodeId}
    ensures forall k :: k in t.rows && k != n.nodeId ==> t'.rows[k] == t.rows[k]
    ensures var r := t'.rows[n.nodeId];
      && r.parentId == n.parentId && r.browseName == n.browseName
      && r.nodeClass == n.nodeClass && r.dataType == n.dataType && r.writable == n.writable
      && r.nodePath == n.nodePath && r.historyEnabled == Flag(n.historyEnabled)
      && r.includedInConfig == Flag(n.historyEnabledInConfig) && r.removed == Flag(n.removed)
    ensures n.nodeId in t.rows ==>
      var r, before := t'.rows[n.nodeId], t.rows[n.nodeId];
      r.id == before.id && r.namespace == before.namespace && r.identifierType == before.identifierType
      && r.identifier == before.identifier && t'.nextId == t.nextId
    ensures n.nodeId !in t.rows ==>
      var r := t'.rows[n.nodeId];
      r.id == t.nextId && r.nodeId == n.nodeId && r.namespace == n.namespace && r.identifierType == n.identifierType
      && r.identifier == n.identifier && t'.nextId == t.nextId + 1
  {
    if n.nodeId in t.rows then
      var r := t.rows[n.nodeId];
      var updated := r.(parentId := n.parentId, browseName := n.browseName, nodeClass := n.nodeClass,
        dataType := n.dataType, writable := n.writable, nodePath := n.nodePath,
        historyEnabled := Flag(n.historyEnabled), includedInConfig := Flag(n.historyEnabledInConfig),
        removed := Flag(n.removed));
      Table(t.rows[n.nodeId := updated], t.nextId)
    else
      var inserted := Row(t.nextId, n.nodeId, n.namespace, n.identifierType, n.identifier,
        n.parentId, n.browseName, n.nodeClass, n.dataType, n.writable, n.nodePath,
        Flag(n.removed), Flag(n.historyEnabled), Flag(n.historyEnabledInConfig));
      Table(t.rows[n.nodeId := inserted], t.nextId + 1)
  }

  /** Upserting keeps the table valid. */
  lemma UpsertValid(t: Table, n: Node)
    requires ValidTable(t)
    ensures ValidTable(Upsert(t, n))
  {
    var t' := Upsert(t, n);
    forall k | k in t'.rows
      ensures ValidRow(k, t'.rows[k]) && t'.rows[k].id < t'.nextId
    {
      if k != n.nodeId {
        assert t'.rows[k] == t.rows[k];
      }
    }
    forall k, l | k in t'.rows && l in t'.rows && k != l
      ensures t'.rows[k].id != t'.rows[l].id
    {
      if k == n.nodeId {
        assert t'.rows[l] == t.rows[l];
      } else if l == n.nodeId {
        assert t'.rows[k] == t.rows[k];
      } else {
        assert t'.rows[k] == t.rows[k] && t'.rows[l] == t.rows[l];
      }
    }
  }

  /** `UPDATE nodes SET <column> = v WHERE node_id = id`, for one of the flag columns. */
  datatype FlagColumn = RemovedColumn | HistoryEnabledColumn | IncludedInConfigColumn

  function SetFlag(t: Table, column: FlagColumn, id: string, v: int): (t': Table)
    ensures t'.rows.Keys == t.rows.Keys && t'.nextId == t.nextId
    ensures forall k :: k in t.rows && k != id ==> t'.rows[k] == t.rows[k]
    ensures id in t.rows ==> t'.rows[id] == match column
      case RemovedColumn => t.rows[id].(removed := v)
      case HistoryEnabledColumn => t.rows[id].(historyEnabled := v)
      case IncludedInConfigColumn => t.rows[id].(includedInConfig := v)
  {
    if id !in t.rows then t
    else
      var r := t.rows[id];
      var r' := match column
        case RemovedColumn => r.(removed := v)
        case HistoryEnabledColumn => r.(historyEnabled := v)
        case IncludedInConfigColumn => r.(includedInConfig := v);
      Table(t.rows[id := r'], t.nextId)
  }

  /** An update on an unknown `node_id` matches no row and changes nothing. */
  lemma SetFlagUnknown(t: Table, column: FlagColumn, id: string, v: int)
    requires id !in t.rows
    ensures SetFlag(t, column, id, v) == t
  {
  }

  lemma SetFlagValid(t: Table, column: FlagColumn, id: string, v: int)
    requires ValidTable(t) && IsFlag(v)
    ensures ValidTable(SetFlag(t, column, id, v))
  {
    var t' := SetFlag(t, column, id, v);
    assert forall k :: k in t'.rows ==> t'.rows[k].id == t.rows[k].id;
  }

  /**
   * The CASE expression of `GetHistoryNodes` and the switch on its label: the
   * desired flag `history_enabled` against the applied flag
   * `included_in_config`. Any pair other than four 0/1 combinations gives a
   * NULL label and NoAction.
   */
  function Classify(historyEnabled: int, includedInConfig: int): (a: Action)
    ensures a == NoAction <==> !(IsFlag(historyEnabled) && IsFlag(includedInConfig))
    ensures a != NoAction ==> FlagsOf(a) == (historyEnabled, includedInConfig)
  {
    if historyEnabled == 1 && includedInConfig == 0 then Added
    else if historyEnabled == 0 && includedInConfig == 1 then Removed
    else if historyEnabled == 1 && includedInConfig == 1 then HistoryEnabledNoChange
    else if historyEnabled == 0 && includedInConfig == 0 then HistoryDisabledNoChange
    else NoAction
  }

  /** The flag pair each of the four classifying actions stands for. */
  function FlagsOf(a: Action): (int, int) {
    if a == Added then (1, 0)
    else if a == Removed then (0, 1)
    else if a == HistoryEnabledNoChange then (1, 1)
    else if a == HistoryDisabledNoChange then (0, 0)
    else (-1, -1)
  }

  /** The four 0/1 flag pairs map one to one onto the four actions other than NoAction. */
  lemma ClassifyOneToOne(h1: int, i1: int, h2: int, i2: int)
    requires IsFlag(h1) && IsFlag(i1) && IsFlag(h2) && IsFlag(i2)
    ensures Classify(h1, i1) == Classify(h2, i2) <==> h1 == h2 && i1 == i2
    ensures IsNamedAction(Classify(h1, i1)) && Classify(h1, i1) != NoAction
  {
  }

  /**
   * One row of `GetHistoryNodes`: every column it selects, the two flags as
   * booleans, and the classification; `removed` is not selected.
   */
  function HistoryNode(r: Row): (n: Node)
    ensures n.nodeId == r.nodeId && !n.removed
    ensures n.dbActionRequired == Classify(r.historyEnabled, r.includedInConfig)
  {
    Node(r.id, r.nodeId, r.parentId, r.browseName, r.nodeClass, r.dataType, r.writable,
      r.historyEnabled == 1, false, r.namespace, r.identifierType, r.identifier, r.nodePath,
      r.includedInConfig == 1, Classify(r.historyEnabled, r.includedInConfig))
  }

  /**
   * A possible result of `GetHistoryNodes`: every stored row, removed ones
   * included, exactly once, in some order (the query has no ORDER BY).
   */
  predicate IsHistoryListing(t: Table, nodes: seq<Node>) {
    && |nodes| == |t.rows|
    && (forall i :: 0 <= i < |nodes| ==> nodes[i].nodeId in t.rows && nodes[i] == HistoryNode(t.rows[nodes[i].nodeId]))
    && (forall i, j :: 0 <= i < j < |nodes| ==> nodes[i].nodeId != nodes[j].nodeId)
    && (forall k :: k in t.rows ==> exists i :: 0 <= i < |nodes| && nodes[i].nodeId == k)
  }

  /**
   * `IsTelegrafUpToDate`: no row has history enabled but not in the
   * configuration, or in the configuration with history disabled.
   */
  predicate UpToDate(t: Table) {
    forall k :: k in t.rows ==>
      !((t.rows[k].historyEnabled == 1 && t.rows[k].includedInConfig == 0)
        || (t.rows[k].historyEnabled == 0 && t.rows[k].includedInConfig == 1))
  }

  /** On a valid table, up to date means that both flags agree on every row, removed rows included. */
  lemma UpToDateIffFlagsAgree(t: Table)
    requires ValidTable(t)
    ensures UpToDate(t) <==> forall k :: k in t.rows ==> t.rows[k].historyEnabled == t.rows[k].includedInConfig
  {
    if UpToDate(t) {
      forall k | k in t.rows ensures t.rows[k].historyEnabled == t.rows[k].includedInConfig {
        assert ValidRow(k, t.rows[k]);
      }
    }
  }

  /** Up to date means that no row is classified Added or Removed. */
  lemma UpToDateIffNothingPending(t: Table)
    ensures UpToDate(t) <==> forall k :: k in t.rows ==>
      Classify(t.rows[k].historyEnabled, t.rows[k].includedInConfig) !in {Added, Removed}
  {
  }

  /** What one iteration of `SetDatabaseNodeStates` does to a row of the node's action. */
  function Transition(r: Row, a: Action): (r': Row)
    ensures r'.(includedInConfig := r.includedInConfig) == r
    ensures a == Added ==> r'.includedInConfig == 1
    ensures a == Removed ==> r'.includedInConfig == 0
    ensures a != Added && a != Removed ==> r' == r
  {
    if a == Added then r.(includedInConfig := 1)
    else if a == Removed then r.(includedInConfig := 0)
    else r
  }

  /** One iteration of `SetDatabaseNodeStates`, when its update succeeds. */
  function ApplyOne(t: Table, n: Node): Table {
    if n.dbActionRequired == Added then SetFlag(t, IncludedInConfigColumn, n.nodeId, 1)
    else if n.dbActionRequired == Removed then SetFlag(t, IncludedInConfigColumn, n.nodeId, 0)
    else t
  }

  /** `SetDatabaseNodeStates` over the nodes in order, when every update succeeds. */
  function ApplyStates(t: Table, nodes: seq<Node>): Table {
    if nodes == [] then t
    else ApplyOne(ApplyStates(t, nodes[..|nodes| - 1]), nodes[|nodes| - 1])
  }

  /** The actions of the nodes that name `key`, in order. */
  function ActionsFor(nodes: seq<Node>, key: string): seq<Action> {
    if nodes == [] then []
    else
      var last := nodes[|nodes| - 1];
      ActionsFor(nodes[..|nodes| - 1], key) + (if last.nodeId == key then [last.dbActionRequired] else [])
  }

  function TransitionAll(r: Row, actions: seq<Action>): Row {
    if actions == [] then r
    else Transition(TransitionAll(r, actions[..|actions| - 1]), actions[|actions| - 1])
  }

  lemma TransitionAllAppend(r: Row, actions: seq<Action>, a: Action)
    ensures TransitionAll(r, actions + [a]) == Transition(TransitionAll(r, actions), a)
  {
    assert (actions + [a])[..|actions|] == actions;
  }

  /**
   * The transition touches no other column and no other row: each row ends
   * up as the successive transitions of the nodes naming it, and the set of
   * rows stays the same.
   */
  lemma {:induction false} ApplyStatesKeys(t: Table, nodes: seq<Node>)
    ensures ApplyStates(t, nodes).rows.Keys == t.rows.Keys && ApplyStates(t, nodes).nextId == t.nextId
    decreases |nodes|
  {
    if nodes != [] {
      ApplyStatesKeys(t, nodes[..|nodes| - 1]);
    }
  }

  lemma {:induction false} ApplyStatesRow(t: Table, nodes: seq<Node>, key: string)
    requires key in t.rows
    ensures ApplyStates(t, nodes).rows.Keys == t.rows.Keys
    ensures ApplyStates(t, nodes).rows[key] == TransitionAll(t.rows[key], ActionsFor(nodes, key))
    decreases |nodes|
  {
    if nodes != [] {
      var front := nodes[..|nodes| - 1];
      var last := nodes[|nodes| - 1];
      ApplyStatesRow(t, front, key);
      var mid := ApplyStates(t, front);
      assert ApplyStates(t, nodes) == ApplyOne(mid, last);
      if last.nodeId == key {
        assert ActionsFor(nodes, key) == ActionsFor(front, key) + [last.dbActionRequired];
        TransitionAllAppend(t.rows[key], ActionsFor(front, key), last.dbActionRequired);
        assert ApplyOne(mid, last).rows[key] == Transition(mid.rows[key], last.dbActionRequired);
      } else {
        assert ActionsFor(nodes, key) == ActionsFor(front, key) + [];
        assert ActionsFor(front, key) + [] == ActionsFor(front, key);
      }
    }
  }

  lemma {:induction false} ActionsForAbsent(nodes: seq<Node>, key: string)
    requires forall i :: 0 <= i < |nodes| ==> nodes[i].nodeId != key
    ensures ActionsFor(nodes, key) == []
    decreases |nodes|
  {
    if nodes != [] {
      ActionsForAbsent(nodes[..|nodes| - 1], key);
    }
  }

  lemma {:induction false} ActionsForUnique(nodes: seq<Node>, key: string, j: nat)
    requires j < |nodes| && nodes[j].nodeId == key
    requires forall i :: 0 <= i < |nodes| && i != j ==> nodes[i].nodeId != key
    ensures ActionsFor(nodes, key) == [nodes[j].dbActionRequired]
    decreases |nodes|
  {
    var front := nodes[..|nodes| - 1];
    if j == |nodes| - 1 {
      ActionsForAbsent(front, key);
    } else {
      ActionsForUnique(front, key, j);
    }
  }

  /**
   * The reconciliation result: applying the transition to a fresh
   * classification of every row leaves the configuration up to date.
   */
  lemma ApplyFreshListingUpToDate(t: Table, nodes: seq<Node>)
    requires ValidTable(t) && IsHistoryListing(t, nodes)
    ensures UpToDate(ApplyStates(t, nodes))
  {
    var t' := ApplyStates(t, nodes);
    ApplyStatesKeys(t, nodes);
    forall k | k in t'.rows
      ensures !((t'.rows[k].historyEnabled == 1 && t'.rows[k].includedInConfig == 0)
        || (t'.rows[k].historyEnabled == 0 && t'.rows[k].includedInConfig == 1))
    {
      FreshRowAgrees(t, nodes, k);
    }
  }

  /** One row of the reconciliation result: its row was classified once, and its transition makes the flags agree. */
  lemma FreshRowAgrees(t: Table, nodes: seq<Node>, k: string)
    requires ValidTable(t) && IsHistoryListing(t, nodes) && k in t.rows
    ensures k in ApplyStates(t, nodes).rows
    ensures var r := ApplyStates(t, nodes).rows[k];
      r == Transition(t.rows[k], Classify(t.rows[k].historyEnabled, t.rows[k].includedInConfig))
      && r.historyEnabled == r.includedInConfig
  {
    ApplyStatesRow(t, nodes, k);
    var j :| 0 <= j < |nodes| && nodes[j].nodeId == k;
    ActionsForUnique(nodes, k, j);
    var r := t.rows[k];
    assert ValidRow(k, r);
    TransitionAllOne(r, nodes[j].dbActionRequired);
    ClassifiedTransitionAgrees(r);
  }

  lemma TransitionAllOne(r: Row, a: Action)
    ensures TransitionAll(r, [a]) == Transition(r, a)
  {
    assert [a][..0] == [];
  }

  /** Moving a row by its own classification makes its two flags agree. */
  lemma ClassifiedTransitionAgrees(r: Row)
    requires IsFlag(r.historyEnabled) && IsFlag(r.includedInConfig)
    ensures var r' := Transition(r, Classify(r.historyEnabled, r.includedInConfig));
      r'.historyEnabled == r'.includedInConfig
  {
  }

  /** The transition keeps the table valid and changes only `included_in_config`. */
  lemma ApplyStatesValid(t: Table, nodes: seq<Node>)
    requires ValidTable(t)
    ensures ValidTable(ApplyStates(t, nodes)) && ApplyStates(t, nodes).nextId == t.nextId
    ensures ApplyStates(t, nodes).rows.Keys == t.rows.Keys
    ensures forall k :: k in t.rows ==>
      ApplyStates(t, nodes).rows[k].(includedInConfig := t.rows[k].includedInConfig) == t.rows[k]
  {
    if nodes != [] {
      ApplyStatesValid(t, nodes[..|nodes| - 1]);
      ApplyOneValid(ApplyStates(t, nodes[..|nodes| - 1]), nodes[|nodes| - 1]);
    }
  }

  lemma ApplyOneValid(t: Table, n: Node)
    requires ValidTable(t)
    ensures ValidTable(ApplyOne(t, n)) && ApplyOne(t, n).nextId == t.nextId
    ensures ApplyOne(t, n).rows.Keys == t.rows.Keys
    ensures forall k :: k in t.rows ==>
      ApplyOne(t, n).rows[k].(includedInConfig := t.rows[k].includedInConfig) == t.rows[k]
  {
    if n.dbActionRequired == Added {
      SetFlagValid(t, IncludedInConfigColumn, n.nodeId, 1);
    } else if n.dbActionRequired == Removed {
      SetFlagValid(t, IncludedInConfigColumn, n.nodeId, 0);
    }
  }

  // ---- Storing a walked tree ----

  /**
   * The Node `insertNodesRecursively` builds for a walked NodeDef: the
   * printed NodeId, the parts parsed back from it (zero when the parse
   * fails, a case in which the source aborts before using them), the given
   * parent, and both flags false.
   */
  function WalkNode(def: NodeDef, parentId: string): (n: Node)
    ensures n.nodeId == NodeIdString(def.nodeId) && n.parentId == parentId
    ensures !n.historyEnabled && !n.historyEnabledInConfig && !n.removed && n.dbActionRequired == NoAction
    ensures n.browseName == def.browseName && n.nodePath == def.path
  {
    var printed := NodeIdString(def.nodeId);
    var parts := match ParseNodeIdString(printed)
      case Success(p) => p
      case Failure(_) => NodeIdParts(0, "", "");
    Node(0, printed, parentId, def.browseName, NodeClassName(def.nodeClass), def.dataType, def.writable,
      false, false, parts.namespace, parts.identifierType, parts.identifier, def.path, false, NoAction)
  }

  /** The walked forest in pre-order: each node, then its subtree, then its later siblings. */
  function Flatten(defs: seq<NodeDef>, parentId: string): seq<Node>
    decreases defs
  {
    if defs == [] then []
    else
      var d := defs[0];
      [WalkNode(d, parentId)] + Flatten(d.children, NodeIdString(d.nodeId)) + Flatten(defs[1..], parentId)
  }

  /** The number of NodeDefs in a forest. */
  function Count(defs: seq<NodeDef>): nat
    decreases defs
  {
    if defs == [] then 0 else 1 + Count(defs[0].children) + Count(defs[1..])
  }

  /** One row per walked node. */
  lemma {:induction false} FlattenLength(defs: seq<NodeDef>, parentId: string)
    ensures |Flatten(defs, parentId)| == Count(defs)
    decreases defs
  {
    if defs != [] {
      FlattenLength(defs[0].children, NodeIdString(defs[0].nodeId));
      FlattenLength(defs[1..], parentId);
    }
  }

  lemma {:induction false} FlattenAppend(a: seq<NodeDef>, b: seq<NodeDef>, parentId: string)
    ensures Flatten(a + b, parentId) == Flatten(a, parentId) + Flatten(b, parentId)
    decreases |a|
  {
    if a == [] {
      assert a + b == b;
    } else {
      assert (a + b)[0] == a[0] && (a + b)[1..] == a[1..] + b;
      FlattenAppend(a[1..], b, parentId);
    }
  }

  /** The node at `j` hangs from `parentId` or from a node listed before it. */
  predicate HangsFrom(nodes: seq<Node>, j: nat, parentId: string)
    requires j < |nodes|
  {
    nodes[j].parentId == parentId || exists i :: 0 <= i < j && nodes[i].nodeId == nodes[j].parentId
  }

  /**
   * Parents come first: every flattened node either hangs from the given
   * parent or names as parent a node that comes before it.
   */
  predicate ParentsFirst(nodes: seq<Node>, parentId: string) {
    forall j :: 0 <= j < |nodes| ==> HangsFrom(nodes, j, parentId)
  }

  lemma ParentsFirstAppend(a: seq<Node>, b: seq<Node>, parentId: string)
    requires ParentsFirst(a, parentId) && ParentsFirst(b, parentId)
    ensures ParentsFirst(a + b, parentId)
  {
    var all := a + b;
    forall j | 0 <= j < |all|
      ensures HangsFrom(all, j, parentId)
    {
      if j < |a| {
        assert HangsFrom(a, j, parentId);
        assert all[j] == a[j];
        if a[j].parentId != parentId {
          var i :| 0 <= i < j && a[i].nodeId == a[j].parentId;
          assert all[i] == a[i];
        }
      } else {
        var m := j - |a|;
        assert HangsFrom(b, m, parentId);
        assert all[j] == b[m];
        if b[m].parentId != parentId {
          var i :| 0 <= i < m && b[i].nodeId == b[m].parentId;
          assert all[i + |a|] == b[i];
        }
      }
    }
  }

  lemma ParentsFirstUnder(head: Node, sub: seq<Node>, parentId: string)
    requires head.parentId == parentId && ParentsFirst(sub, head.nodeId)
    ensures ParentsFirst([head] + sub, parentId)
  {
    var all := [head] + sub;
    forall j | 0 <= j < |all|
      ensures HangsFrom(all, j, parentId)
    {
      if j > 0 {
        var m := j - 1;
        assert HangsFrom(sub, m, head.nodeId);
        assert all[j] == sub[m];
        if sub[m].parentId == head.nodeId {
          assert all[0].nodeId == sub[m].parentId;
        } else {
          var i :| 0 <= i < m && sub[i].nodeId == sub[m].parentId;
          assert all[i + 1] == sub[i];
        }
      }
    }
  }

  /**
   * Parents come first: in the pre-order list, every node hangs from the
   * given parent or from a node stored before it.
   */
  lemma {:induction false} FlattenParentsFirst(defs: seq<NodeDef>, parentId: string)
    ensures ParentsFirst(Flatten(defs, parentId), parentId)
    decreases defs
  {
    if defs != [] {
      var d := defs[0];
      var head := WalkNode(d, parentId);
      var sub := Flatten(d.children, NodeIdString(d.nodeId));
      var rest := Flatten(defs[1..], parentId);
      FlattenParentsFirst(d.children, NodeIdString(d.nodeId));
      FlattenParentsFirst(defs[1..], parentId);
      ParentsFirstUnder(head, sub, parentId);
      ParentsFirstAppend([head] + sub, rest, parentId);
    }
  }

  /** The top-level nodes all hang from the given parent, each at the start of its own subtree. */
  lemma TopLevelParent(defs: seq<NodeDef>, parentId: string)
    requires defs != []
    ensures Flatten(defs, parentId)[0] == WalkNode(defs[0], parentId)
    ensures Flatten(defs, parentId)[0].parentId == parentId
  {
  }

  /** Upserting the nodes in order. */
  function UpsertAll(t: Table, nodes: seq<Node>): Table {
    if nodes == [] then t else Upsert(UpsertAll(t, nodes[..|nodes| - 1]), nodes[|nodes| - 1])
  }

  lemma {:induction false} UpsertAllAppend(t: Table, a: seq<Node>, b: seq<Node>)
    ensures UpsertAll(t, a + b) == UpsertAll(UpsertAll(t, a), b)
    decreases |b|
  {
    if b == [] {
      assert a + b == a;
    } else {
      var b' := b[..|b| - 1];
      assert (a + b)[..|a + b| - 1] == a + b';
      UpsertAllAppend(t, a, b');
    }
  }

  lemma {:induction false} UpsertAllValid(t: Table, nodes: seq<Node>)
    requires ValidTable(t)
    ensures ValidTable(UpsertAll(t, nodes))
    decreases |nodes|
  {
    if nodes != [] {
      UpsertAllValid(t, nodes[..|nodes| - 1]);
      UpsertValid(UpsertAll(t, nodes[..|nodes| - 1]), nodes[|nodes| - 1]);
    }
  }

  /**
   * A re-walk resets the operator's choice: storing a walked node clears
   * both flags and `removed` of the row already stored under its id.
   */
  lemma RewalkResetsFlags(t: Table, def: NodeDef, parentId: string)
    ensures var n := WalkNode(def, parentId);
      var r := Upsert(t, n).rows[n.nodeId];
      r.historyEnabled == 0 && r.includedInConfig == 0 && r.removed == 0
  {
  }

  /**
   * What the reset costs: a node whose history is on and configured
   * (HistoryEnabledNoChange) classifies after a re-walk as
   * HistoryDisabledNoChange, so the next configuration update drops it.
   */
  lemma RewalkDropsConfiguredNode(t: Table, def: NodeDef, parentId: string)
    requires NodeIdString(def.nodeId) in t.rows
    requires t.rows[NodeIdString(def.nodeId)].historyEnabled == 1
    requires t.rows[NodeIdString(def.nodeId)].includedInConfig == 1
    ensures var k := NodeIdString(def.nodeId);
      && Classify(t.rows[k].historyEnabled, t.rows[k].includedInConfig) == HistoryEnabledNoChange
      && var r := Upsert(t, WalkNode(def, parentId)).rows[k];
         Classify(r.historyEnabled, r.includedInConfig) == HistoryDisabledNoChange
  {
    RewalkResetsFlags(t, def, parentId);
  }

  /**
   * The upsert with the update list the design calls for: a row already
   * stored keeps `history_enabled` and `included_in_config` and takes every
   * other column as `Upsert` does; a new row is inserted as `Upsert` does.
   */
  function UpsertKeepingFlags(t: Table, n: Node): (t': Table)
    ensures n.nodeId !in t.rows ==> t' == Upsert(t, n)
    ensures n.nodeId in t.rows ==>
      var u := Upsert(t, n);
      t' == Table(u.rows[n.nodeId := u.rows[n.nodeId].(historyEnabled := t.rows[n.nodeId].historyEnabled,
        includedInConfig := t.rows[n.nodeId].includedInConfig)], u.nextId)
  {
    if n.nodeId in t.rows then
      var r := t.rows[n.nodeId];
      var updated := r.(parentId := n.parentId, browseName := n.browseName, nodeClass := n.nodeClass,
        dataType := n.dataType, writable := n.writable, nodePath := n.nodePath, removed := Flag(n.removed));
      Table(t.rows[n.nodeId := updated], t.nextId)
    else
      Upsert(t, n)
  }

  /** The corrected upsert keeps the table valid. */
  lemma UpsertKeepingFlagsValid(t: Table, n: Node)
    requires ValidTable(t)
    ensures ValidTable(UpsertKeepingFlags(t, n))
  {
    UpsertValid(t, n);
    var t' := UpsertKeepingFlags(t, n);
    if n.nodeId in t.rows {
      assert ValidRow(n.nodeId, t.rows[n.nodeId]);
      forall k | k in t'.rows
        ensures ValidRow(k, t'.rows[k]) && t'.rows[k].id < t'.nextId
      {
        if k != n.nodeId {
          assert t'.rows[k] == Upsert(t, n).rows[k];
        }
      }
    }
  }

  /** With the corrected upsert, a re-walk keeps the operator's choice and what the configuration holds. */
  lemma RewalkKeepsFlags(t: Table, def: NodeDef, parentId: string)
    requires NodeIdString(def.nodeId) in t.rows
    ensures var k := NodeIdString(def.nodeId);
      var r := UpsertKeepingFlags(t, WalkNode(def, parentId)).rows[k];
      && r.historyEnabled == t.rows[k].historyEnabled
      && r.includedInConfig == t.rows[k].includedInConfig
      && Classify(r.historyEnabled, r.includedInConfig) == Classify(t.rows[k].historyEnabled, t.rows[k].includedInConfig)
  {
  }

  /**
   * With the corrected upsert, a re-walk of an up-to-date table leaves it up
   * to date: a new node arrives with both flags off, and a known node keeps
   * its flags.
   */
  lemma RewalkKeepsUpToDate(t: Table, def: NodeDef, parentId: string)
    requires UpToDate(t)
    ensures UpToDate(UpsertKeepingFlags(t, WalkNode(def, parentId)))
  {
    var n := WalkNode(def, parentId);
    var t' := UpsertKeepingFlags(t, n);
    forall k | k in t'.rows
      ensures !((t'.rows[k].historyEnabled == 1 && t'.rows[k].includedInConfig == 0)
        || (t'.rows[k].historyEnabled == 0 && t'.rows[k].includedInConfig == 1))
    {
      if k != n.nodeId {
        assert t'.rows[k] == t.rows[k];
      }
    }
  }

  /**
   * The parts stored for a walked node are those of its NodeId, whenever the
   * NodeId can be parsed back at all.
   */
  lemma WalkNodeParts(def: NodeDef, parentId: string)
    requires Parsable(def.nodeId)
    ensures var n := WalkNode(def, parentId);
      NodeIdParts(n.namespace, n.identifierType, n.identifier) == PartsOf(def.nodeId)
  {
    ParsePrintedNodeId(def.nodeId);
  }
}

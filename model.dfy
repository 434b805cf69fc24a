/**
 * The reconciliation vocabulary of the hub (`hub-api/internal/database/model.go`):
 * the `Action` a stored node needs so that the Telegraf configuration matches
 * the operator's choice, its label, the `Node` record the database layer hands
 * out, and `FilterNodesByAction`.
 */
module Model {

  /** Go's `type Action int`: any integer is an Action, five of them are named. */
  type Action = int

  const NoAction: Action := 0
  const Added: Action := 1
  const Removed: Action := 2
  const HistoryEnabledNoChange: Action := 3
  const HistoryDisabledNoChange: Action := 4

  predicate IsNamedAction(a: Action) {
    NoAction <= a <= HistoryDisabledNoChange
  }

  /** `Action.String`: a fixed label for each named action, "Unknown" for every other value. */
  function ActionString(a: Action): (name: string)
    ensures IsNamedAction(a) <==> name != "Unknown"
  {
    if a == NoAction then "No Action"
    else if a == Added then "Added"
    else if a == Removed then "Removed"
    else if a == HistoryEnabledNoChange then "History Enabled No Change"
    else if a == HistoryDisabledNoChange then "History Disabled No Change"
    else "Unknown"
  }

  /** The five named actions are five distinct values with five distinct labels. */
  lemma ActionLabelsDistinct(a: Action, b: Action)
    requires IsNamedAction(a) && IsNamedAction(b) && a != b
    ensures ActionString(a) != ActionString(b)
  {
  }

  /**
   * A node as the database layer returns it. The `Children` references that
   * `LoadHierarchy` fills in are kept apart, as the children map of a
   * hierarchy, and the `LastUpdated` timestamp is not modelled.
   */
  datatype Node = Node(
    id: int,
    nodeId: string,
    parentId: string,
    browseName: string,
    nodeClass: string,
    dataType: string,
    writable: bool,
    historyEnabled: bool,
    removed: bool,
    namespace: int,
    identifierType: string,
    identifier: string,
    nodePath: string,
    historyEnabledInConfig: bool,
    dbActionRequired: Action)

  /** The nodes of `nodes` whose action is one of `actions`, in their original order. */
  function Filtered(nodes: seq<Node>, actions: seq<Action>): seq<Node> {
    if nodes == [] then []
    else
      var last := nodes[|nodes| - 1];
      Filtered(nodes[..|nodes| - 1], actions) + (if last.dbActionRequired in actions then [last] else [])
  }

  /**
   * `FilterNodesByAction`: for every node, scan the wanted actions and keep
   * the node at the first one that matches.
   */
  method FilterNodesByAction(nodes: seq<Node>, actions: seq<Action>) returns (filtered: seq<Node>)
    ensures filtered == Filtered(nodes, actions)
  {
    filtered := [];
    for i := 0 to |nodes|
      invariant filtered == Filtered(nodes[..i], actions)
    {
      var node := nodes[i];
      assert nodes[..i + 1][..i] == nodes[..i];
      for j := 0 to |actions|
        invariant node.dbActionRequired !in actions[..j]
      {
        if node.dbActionRequired == actions[j] {
          filtered := filtered + [node];
          break;
        }
        assert actions[..j + 1] == actions[..j] + [actions[j]];
      }
      assert filtered == Filtered(nodes[..i + 1], actions);
    }
    assert nodes[..|nodes|] == nodes;
  }

  /** a is b with some elements deleted, the rest kept in order. */
  predicate IsSubsequence<T(==)>(a: seq<T>, b: seq<T>)
    decreases |b|
  {
    if b == [] then a == []
    else
      (a != [] && a[|a| - 1] == b[|b| - 1] && IsSubsequence(a[..|a| - 1], b[..|b| - 1]))
      || IsSubsequence(a, b[..|b| - 1])
  }

  /** The filter keeps the input order: its result is a subsequence of the input. */
  lemma {:induction false} FilteredIsSubsequence(nodes: seq<Node>, actions: seq<Action>)
    ensures IsSubsequence(Filtered(nodes, actions), nodes)
    decreases |nodes|
  {
    if nodes != [] {
      var prefix := nodes[..|nodes| - 1];
      var last := nodes[|nodes| - 1];
      FilteredIsSubsequence(prefix, actions);
      var f := Filtered(nodes, actions);
      if last.dbActionRequired in actions {
        assert f == Filtered(prefix, actions) + [last];
        assert f[..|f| - 1] == Filtered(prefix, actions);
        assert f[|f| - 1] == nodes[|nodes| - 1];
      } else {
        assert f == Filtered(prefix, actions);
      }
    }
  }

  /**
   * Each input node appears in the result exactly as often as in the input
   * when its action is wanted, and not at all otherwise, however often the
   * wanted list names that action.
   */
  lemma {:induction false} FilteredCount(nodes: seq<Node>, actions: seq<Action>, x: Node)
    ensures multiset(Filtered(nodes, actions))[x]
      == if x.dbActionRequired in actions then multiset(nodes)[x] else 0
    decreases |nodes|
  {
    if nodes != [] {
      var prefix := nodes[..|nodes| - 1];
      FilteredCount(prefix, actions, x);
      assert nodes == prefix + [nodes[|nodes| - 1]];
    }
  }

  /** A node is in the result iff it is in the input and its action is wanted. */
  lemma FilteredMembership(nodes: seq<Node>, actions: seq<Action>, x: Node)
    ensures x in Filtered(nodes, actions) <==> x in nodes && x.dbActionRequired in actions
  {
    FilteredCount(nodes, actions, x);
    assert x in Filtered(nodes, actions) <==> multiset(Filtered(nodes, actions))[x] > 0;
    assert x in nodes <==> multiset(nodes)[x] > 0;
  }

  /** Nothing is kept when no action is wanted. */
  lemma {:induction false} FilteredNoActions(nodes: seq<Node>)
    ensures Filtered(nodes, []) == []
    decreases |nodes|
  {
    if nodes != [] {
      FilteredNoActions(nodes[..|nodes| - 1]);
    }
  }

  /** Filtering a concatenation filters each part. */
  lemma {:induction false} FilteredAppend(a: seq<Node>, b: seq<Node>, actions: seq<Action>)
    ensures Filtered(a + b, actions) == Filtered(a, actions) + Filtered(b, actions)
    decreases |b|
  {
    if b != [] {
      var b' := b[..|b| - 1];
      assert (a + b)[..|a + b| - 1] == a + b';
      FilteredAppend(a, b', actions);
    } else {
      assert a + b == a;
    }
  }

  /** Only the set of wanted actions matters, not their order or repetitions. */
  lemma {:induction false} FilteredBySet(nodes: seq<Node>, actions: seq<Action>, others: seq<Action>)
    requires forall a :: a in actions <==> a in others
    ensures Filtered(nodes, actions) == Filtered(nodes, others)
    decreases |nodes|
  {
    if nodes != [] {
      FilteredBySet(nodes[..|nodes| - 1], actions, others);
    }
  }
}

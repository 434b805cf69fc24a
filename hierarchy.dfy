/**
 * What `LoadHierarchy` (`hub-api/internal/database/db.go`) builds from the
 * live rows of the table: the root nodes in browse-name order and, for every
 * loaded node, the nodes whose `parent_id` names it. The Go code links
 * `*Node` references; here a hierarchy is the loaded nodes by id plus a
 * children map, which describes the same graph.
 */
module Hierarchy {
  import opened Model
  import opened Table

  /** Lexicographic order on text, as the `ORDER BY browse_name` of the query. */
  predicate LexLe(a: string, b: string)
    decreases |a|
  {
    a == [] || (b != [] && (a[0] < b[0] || (a[0] == b[0] && LexLe(a[1..], b[1..]))))
  }

  lemma {:induction false} LexLeTotal(a: string, b: string)
    ensures LexLe(a, b) || LexLe(b, a)
    decreases |a|
  {
    if a != [] && b != [] && a[0] == b[0] {
      LexLeTotal(a[1..], b[1..]);
    }
  }

  lemma {:induction false} LexLeTransitive(a: string, b: string, c: string)
    requires LexLe(a, b) && LexLe(b, c)
    ensures LexLe(a, c)
    decreases |a|
  {
    if a != [] && b != [] && c != [] && a[0] == b[0] && b[0] == c[0] {
      LexLeTransitive(a[1..], b[1..], c[1..]);
    }
  }

  /** Every finite non-empty set of rows has one whose browse name comes first. */
  lemma {:induction false} MinBrowseNameExists(rows: map<string, Row>, keys: set<string>)
    requires keys != {} && keys <= rows.Keys
    ensures exists k :: k in keys && forall l :: l in keys ==> LexLe(rows[k].browseName, rows[l].browseName)
    decreases keys
  {
    var x :| x in keys;
    var rest := keys - {x};
    if rest == {} {
      assert keys == {x};
      assert LexLe(rows[x].browseName, rows[x].browseName) by { LexLeTotal(rows[x].browseName, rows[x].browseName); }
    } else {
      MinBrowseNameExists(rows, rest);
      var m :| m in rest && forall l :: l in rest ==> LexLe(rows[m].browseName, rows[l].browseName);
      LexLeTotal(rows[m].browseName, rows[x].browseName);
      if LexLe(rows[m].browseName, rows[x].browseName) {
        assert forall l :: l in keys ==> LexLe(rows[m].browseName, rows[l].browseName);
      } else {
        forall l | l in keys ensures LexLe(rows[x].browseName, rows[l].browseName) {
          if l != x {
            LexLeTransitive(rows[x].browseName, rows[m].browseName, rows[l].browseName);
          } else {
            LexLeTotal(rows[x].browseName, rows[x].browseName);
          }
        }
      }
    }
  }

  /** The ids of the rows `LoadHierarchy` reads: those with `removed = 0`. */
  function LiveIds(t: Table): (ids: set<string>)
    ensures forall k :: k in ids <==> k in t.rows && t.rows[k].removed == 0
  {
    set k | k in t.rows && t.rows[k].removed == 0
  }

  /** The node scanned from a row: the columns the query selects; the others keep Go's zero values. */
  function HierarchyNode(r: Row): (n: Node)
    ensures n.nodeId == r.nodeId && n.parentId == r.parentId && n.browseName == r.browseName
    ensures n.historyEnabled <==> r.historyEnabled == 1
  {
    Node(r.id, r.nodeId, r.parentId, r.browseName, r.nodeClass, r.dataType, r.writable,
      r.historyEnabled == 1, r.removed == 1, 0, "", "", r.nodePath, false, NoAction)
  }

  predicate IsRoot(t: Table, k: string)
    requires k in t.rows
  {
    t.rows[k].parentId == k
  }

  /** Whether `c` is linked under `x`: both loaded, different, and `c`'s parent id names `x`. */
  predicate IsChildOf(t: Table, c: string, x: string) {
    c in LiveIds(t) && x in LiveIds(t) && c != x && t.rows[c].parentId == x
  }

  /** The hierarchy `LoadHierarchy` returns, with the children linked below each node. */
  datatype Hierarchy = Hierarchy(roots: seq<string>, nodes: map<string, Node>, children: map<string, seq<string>>)

  predicate Distinct(s: seq<string>) {
    forall i, j :: 0 <= i < j < |s| ==> s[i] != s[j]
  }

  /**
   * A possible result of `LoadHierarchy` on table t: the loaded nodes are the
   * live rows; the roots are exactly the live self-parented rows, once each,
   * in browse-name order; and each loaded node's children are exactly the
   * loaded nodes whose parent id names it, once each, in no particular order.
   */
  predicate IsHierarchyOf(t: Table, h: Hierarchy) {
    && h.nodes.Keys == LiveIds(t)
    && (forall k :: k in h.nodes ==> h.nodes[k] == HierarchyNode(t.rows[k]))
    && Distinct(h.roots)
    && (forall k :: k in h.roots ==> k in LiveIds(t) && IsRoot(t, k))
    && (forall k :: k in LiveIds(t) && IsRoot(t, k) ==> k in h.roots)
    && (forall i, j :: 0 <= i < j < |h.roots| ==> LexLe(t.rows[h.roots[i]].browseName, t.rows[h.roots[j]].browseName))
    && h.children.Keys == LiveIds(t)
    && (forall x :: x in h.children ==> Distinct(h.children[x]))
    && (forall x, c :: x in h.children && c in h.children[x] ==> IsChildOf(t, c, x))
    && (forall x, c :: x in h.children && c in LiveIds(t) && IsChildOf(t, c, x) ==> c in h.children[x])
  }

  /**
   * Orphans are dropped: a loaded node that is not self-parented and whose
   * parent was not loaded is neither a root nor anybody's child, so nothing
   * reachable from the roots leads to it.
   */
  lemma OrphanDropped(t: Table, h: Hierarchy, k: string)
    requires IsHierarchyOf(t, h) && k in LiveIds(t)
    requires t.rows[k].parentId != k && t.rows[k].parentId !in LiveIds(t)
    ensures k !in h.roots
    ensures forall x :: x in h.children ==> k !in h.children[x]
  {
    forall x | x in h.children ensures k !in h.children[x] {
      assert !IsChildOf(t, k, x);
    }
  }

  /** Removed rows are not loaded at all, not even as roots. */
  lemma RemovedNotLoaded(t: Table, h: Hierarchy, k: string)
    requires IsHierarchyOf(t, h) && k in t.rows && t.rows[k].removed != 0
    ensures k !in h.nodes && k !in h.roots
    ensures forall x :: x in h.children ==> k !in h.children[x]
  {
    forall x | x in h.children ensures k !in h.children[x] {
      assert !IsChildOf(t, k, x);
    }
  }

  /** Every loaded node hangs from at most one place: the list of its parent, or the roots. */
  lemma SingleParent(t: Table, h: Hierarchy, c: string, x: string, y: string)
    requires IsHierarchyOf(t, h)
    requires x in h.children && y in h.children && c in h.children[x] && c in h.children[y]
    ensures x == y && c !in h.roots
  {
    assert IsChildOf(t, c, x) && IsChildOf(t, c, y);
  }
}

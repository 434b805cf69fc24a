/**
 * The pure tree helpers of the operator's tree view: marking every node
 * visible or hidden, filtering by a search term, setting a node's history
 * flag locally after the server accepted it, and expanding or collapsing a
 * node.
 *
 * The view holds the roots `GET /api/nodes` returns. Each node is the JSON of
 * a database node together with its `Children` array, which is `null` for a
 * node the server sent without children, and the `visible` mark the view
 * adds. The helpers build new trees and never change the ones they are given.
 */
module NodeTree {
  import opened Wrappers
  import opened Model

  /**
   * A node of the view. `childrenNull` says that `Children` is `null`; the
   * `children` sequence is then ignored. `visible` is `None` until one of
   * the visibility helpers sets it.
   */
  datatype UiNode = UiNode(node: Node, visible: Option<bool>, childrenNull: bool, children: seq<UiNode>)

  /**
   * The tree without its view state: `visible` dropped and a `null` child
   * list read as an empty one.
   */
  function Shape(nodes: seq<UiNode>): seq<UiNode>
    decreases nodes
  {
    if nodes == [] then []
    else
      var n := nodes[0];
      [UiNode(n.node, None, false, if n.childrenNull then [] else Shape(n.children))] + Shape(nodes[1..])
  }

  /** Every node, at every depth, carries the mark `Some(v)`. */
  predicate AllVisible(nodes: seq<UiNode>, v: bool)
    decreases nodes
  {
    nodes != [] ==>
      && nodes[0].visible == Some(v)
      && (nodes[0].childrenNull || AllVisible(nodes[0].children, v))
      && AllVisible(nodes[1..], v)
  }

  /**
   * `augmentNodesWithVisibility`: copies every node with `visible` set to
   * the given value, turning a `null` child list into an empty one.
   */
  function Augment(nodes: seq<UiNode>, v: bool): seq<UiNode>
    decreases nodes
  {
    if nodes == [] then []
    else
      var n := nodes[0];
      [n.(visible := Some(v), childrenNull := false, children := if n.childrenNull then [] else Augment(n.children, v))]
        + Augment(nodes[1..], v)
  }

  lemma {:induction false} AugmentMarksAll(nodes: seq<UiNode>, v: bool)
    ensures AllVisible(Augment(nodes, v), v)
    decreases nodes
  {
    if nodes != [] {
      if !nodes[0].childrenNull {
        AugmentMarksAll(nodes[0].children, v);
      }
      AugmentMarksAll(nodes[1..], v);
      var r := Augment(nodes, v);
      assert r[1..] == Augment(nodes[1..], v);
    }
  }

  lemma {:induction false} AugmentKeepsShape(nodes: seq<UiNode>, v: bool)
    ensures Shape(Augment(nodes, v)) == Shape(nodes)
    decreases nodes
  {
    if nodes != [] {
      if !nodes[0].childrenNull {
        AugmentKeepsShape(nodes[0].children, v);
      }
      AugmentKeepsShape(nodes[1..], v);
      var r := Augment(nodes, v);
      assert r[1..] == Augment(nodes[1..], v);
    }
  }

  /** `String.prototype.toLowerCase`, on the ASCII letters only. */
  function Lower(c: char): (l: char)
    ensures 'A' <= c <= 'Z' ==> l as int == c as int + 32
    ensures !('A' <= c <= 'Z') ==> l == c
  {
    if 'A' <= c <= 'Z' then (c as int + 32) as char else c
  }

  /** `toLowerCase` on a string, character by character. */
  function LowerString(s: string): (l: string)
    ensures |l| == |s|
    ensures forall i :: 0 <= i < |s| ==> l[i] == Lower(s[i])
  {
    seq(|s|, i requires 0 <= i < |s| => Lower(s[i]))
  }

  /** `String.prototype.includes`: `t` occurs in `s` at some position. */
  predicate Includes(s: string, t: string) {
    exists i :: 0 <= i <= |s| && t <= s[i..]
  }

  /** The node's path contains the term, ignoring case. */
  predicate PathMatches(n: UiNode, term: string) {
    Includes(LowerString(n.node.nodePath), LowerString(term))
  }

  /** Some node of the forest, at any depth, matches the term. */
  predicate SomeMatch(nodes: seq<UiNode>, term: string)
    decreases nodes
  {
    && nodes != []
    && (|| PathMatches(nodes[0], term)
        || (!nodes[0].childrenNull && SomeMatch(nodes[0].children, term))
        || SomeMatch(nodes[1..], term))
  }

  /** `children.some(child => child.visible)`. */
  predicate AnyVisible(nodes: seq<UiNode>) {
    exists i :: 0 <= i < |nodes| && nodes[i].visible == Some(true)
  }

  /**
   * `updateNodeVisibilityBasedOnSearch`: a node is visible when its path
   * matches or one of its searched children is visible.
   */
  function Search(nodes: seq<UiNode>, term: string): seq<UiNode>
    decreases nodes
  {
    if nodes == [] then []
    else
      var n := nodes[0];
      var kids := if n.childrenNull then [] else Search(n.children, term);
      [n.(visible := Some(PathMatches(n, term) || AnyVisible(kids)), childrenNull := false, children := kids)]
        + Search(nodes[1..], term)
  }

  /** Every node is marked visible exactly when some node of its subtree matches. */
  predicate VisibleIffSubtreeMatches(nodes: seq<UiNode>, term: string)
    decreases nodes
  {
    nodes != [] ==>
      && nodes[0].visible == Some(PathMatches(nodes[0], term) || (!nodes[0].childrenNull && SomeMatch(nodes[0].children, term)))
      && (nodes[0].childrenNull || VisibleIffSubtreeMatches(nodes[0].children, term))
      && VisibleIffSubtreeMatches(nodes[1..], term)
  }

  /** A searched forest shows some node exactly when some node of the original matches. */
  lemma {:induction false} SearchAnyVisible(nodes: seq<UiNode>, term: string)
    ensures AnyVisible(Search(nodes, term)) <==> SomeMatch(nodes, term)
    ensures SomeMatch(Search(nodes, term), term) <==> SomeMatch(nodes, term)
    decreases nodes
  {
    if nodes != [] {
      var r := Search(nodes, term);
      var n := nodes[0];
      assert r[1..] == Search(nodes[1..], term);
      assert PathMatches(r[0], term) == PathMatches(n, term);
      if !n.childrenNull {
        SearchAnyVisible(n.children, term);
      }
      SearchAnyVisible(nodes[1..], term);
      if AnyVisible(r[1..]) {
        var j :| 0 <= j < |r[1..]| && r[1..][j].visible == Some(true);
        assert r[j + 1].visible == Some(true);
      }
      if AnyVisible(r) && r[0].visible != Some(true) {
        var j :| 0 <= j < |r| && r[j].visible == Some(true);
        assert r[1..][j - 1].visible == Some(true);
      }
    }
  }

  lemma {:induction false} SearchVisibility(nodes: seq<UiNode>, term: string)
    ensures VisibleIffSubtreeMatches(Search(nodes, term), term)
    decreases nodes
  {
    if nodes != [] {
      var r := Search(nodes, term);
      var n := nodes[0];
      assert r[1..] == Search(nodes[1..], term);
      assert PathMatches(r[0], term) == PathMatches(n, term);
      if !n.childrenNull {
        SearchVisibility(n.children, term);
        SearchAnyVisible(n.children, term);
      }
      SearchVisibility(nodes[1..], term);
    }
  }

  /** Searching changes only the marks. */
  lemma {:induction false} SearchKeepsShape(nodes: seq<UiNode>, term: string)
    ensures Shape(Search(nodes, term)) == Shape(nodes)
    decreases nodes
  {
    if nodes != [] {
      if !nodes[0].childrenNull {
        SearchKeepsShape(nodes[0].children, term);
      }
      SearchKeepsShape(nodes[1..], term);
      var r := Search(nodes, term);
      assert r[1..] == Search(nodes[1..], term);
    }
  }

  /** Every path contains the empty term, so searching for nothing shows everything. */
  lemma {:induction false} SearchEmptyShowsAll(nodes: seq<UiNode>)
    ensures AllVisible(Search(nodes, ""), true)
    decreases nodes
  {
    if nodes != [] {
      var r := Search(nodes, "");
      var path := LowerString(nodes[0].node.nodePath);
      assert LowerString("") == [] <= path[0..];
      if !nodes[0].childrenNull {
        SearchEmptyShowsAll(nodes[0].children);
      }
      SearchEmptyShowsAll(nodes[1..]);
      assert r[1..] == Search(nodes[1..], "");
    }
  }

  /**
   * The white space `String.prototype.trim` removes: the WhiteSpace and
   * LineTerminator characters of section 12.2 and 12.3 of ECMA-262.
   */
  predicate IsTrimmed(c: char) {
    || c == '\t' || c == '\n' || c == '\U{B}' || c == '\U{C}' || c == '\r' || c == ' '
    || c == '\U{A0}' || c == '\U{1680}' || ('\U{2000}' <= c <= '\U{200A}')
    || c == '\U{2028}' || c == '\U{2029}' || c == '\U{202F}' || c == '\U{205F}'
    || c == '\U{3000}' || c == '\U{FEFF}'
  }

  /** Every character is one that `trim` removes. */
  predicate Blank(s: string) {
    forall i :: 0 <= i < |s| ==> IsTrimmed(s[i])
  }

  /** Drops the white space at the start: what is dropped is blank, and what is left starts with text. */
  function TrimStart(s: string): (r: string)
    ensures |r| <= |s|
    ensures s == s[..|s| - |r|] + r && Blank(s[..|s| - |r|])
    ensures r != [] ==> !IsTrimmed(r[0])
  {
    if s != [] && IsTrimmed(s[0]) then
      var r := TrimStart(s[1..]);
      assert s[..|s| - |r|] == [s[0]] + s[1..][..|s[1..]| - |r|];
      r
    else s
  }

  /** Drops the white space at the end: what is dropped is blank, and what is left ends with text. */
  function TrimEnd(s: string): (r: string)
    ensures |r| <= |s|
    ensures s == r + s[|r|..] && Blank(s[|r|..])
    ensures r != [] ==> !IsTrimmed(r[|r| - 1])
  {
    if s != [] && IsTrimmed(s[|s| - 1]) then
      var r := TrimEnd(s[..|s| - 1]);
      assert s[|r|..] == s[..|s| - 1][|r|..] + [s[|s| - 1]];
      r
    else s
  }

  /** `String.prototype.trim`. */
  function Trim(s: string): string {
    TrimEnd(TrimStart(s))
  }


  /** A term is empty after trimming exactly when it is all white space. */
  lemma TrimEmptyIffBlank(s: string)
    ensures Trim(s) == [] <==> Blank(s)
  {
  }

  /**
   * The effect that runs when the search term changes: a term that is
   * empty after trimming shows every node; any other term is searched for
   * as typed, without trimming.
   */
  function ApplySearchTerm(nodes: seq<UiNode>, term: string): seq<UiNode> {
    if Trim(term) == [] then Augment(nodes, true) else Search(nodes, term)
  }

  /** Both branches keep the tree; a blank term shows everything, any other marks the matches. */
  lemma SearchTermEffect(nodes: seq<UiNode>, term: string)
    ensures Shape(ApplySearchTerm(nodes, term)) == Shape(nodes)
    ensures Blank(term) ==> AllVisible(ApplySearchTerm(nodes, term), true)
    ensures !Blank(term) ==> VisibleIffSubtreeMatches(ApplySearchTerm(nodes, term), term)
  {
    TrimEmptyIffBlank(term);
    if Blank(term) {
      AugmentMarksAll(nodes, true);
      AugmentKeepsShape(nodes, true);
    } else {
      SearchVisibility(nodes, term);
      SearchKeepsShape(nodes, term);
    }
  }

  /**
   * `findAndUpdateNode`: a node with the id gets the new history flag and
   * keeps its children as they are; any other node with a child list is
   * copied with the update applied below it.
   */
  function SetHistory(nodes: seq<UiNode>, id: string, checked: bool): seq<UiNode>
    decreases nodes
  {
    if nodes == [] then []
    else
      var n := nodes[0];
      var updated :=
        if n.node.nodeId == id then n.(node := n.node.(historyEnabled := checked))
        else if !n.childrenNull then n.(children := SetHistory(n.children, id, checked))
        else n;
      [updated] + SetHistory(nodes[1..], id, checked)
  }

  /** Some node of the forest, at any depth, has the id. */
  predicate Occurs(nodes: seq<UiNode>, id: string)
    decreases nodes
  {
    && nodes != []
    && (|| nodes[0].node.nodeId == id
        || (!nodes[0].childrenNull && Occurs(nodes[0].children, id))
        || Occurs(nodes[1..], id))
  }

  /**
   * Every node with the id that is not below another node with the id has
   * the flag `checked`.
   */
  predicate FlagOnReached(nodes: seq<UiNode>, id: string, checked: bool)
    decreases nodes
  {
    nodes != [] ==>
      && (nodes[0].node.nodeId == id ==> nodes[0].node.historyEnabled == checked)
      && (nodes[0].node.nodeId != id && !nodes[0].childrenNull ==> FlagOnReached(nodes[0].children, id, checked))
      && FlagOnReached(nodes[1..], id, checked)
  }

  /**
   * The tree with the history flag cleared on every node with the id that is
   * not below another node with the id, and nothing else touched: the part of
   * the tree the update may not change.
   */
  function MaskHistory(nodes: seq<UiNode>, id: string): seq<UiNode>
    decreases nodes
  {
    if nodes == [] then []
    else
      var n := nodes[0];
      var masked :=
        if n.node.nodeId == id then n.(node := n.node.(historyEnabled := false))
        else if n.childrenNull then n
        else n.(children := MaskHistory(n.children, id));
      [masked] + MaskHistory(nodes[1..], id)
  }

  lemma {:induction false} SetHistoryReaches(nodes: seq<UiNode>, id: string, checked: bool)
    ensures FlagOnReached(SetHistory(nodes, id, checked), id, checked)
    decreases nodes
  {
    if nodes != [] {
      if nodes[0].node.nodeId != id && !nodes[0].childrenNull {
        SetHistoryReaches(nodes[0].children, id, checked);
      }
      SetHistoryReaches(nodes[1..], id, checked);
      var r := SetHistory(nodes, id, checked);
      assert r[1..] == SetHistory(nodes[1..], id, checked);
    }
  }

  /**
   * Only the flags of the reached nodes with the id change: every other node,
   * its own history flag included, and the whole subtree of a matching node
   * stay as they were.
   */
  lemma {:induction false} SetHistoryOnlyFlags(nodes: seq<UiNode>, id: string, checked: bool)
    ensures MaskHistory(SetHistory(nodes, id, checked), id) == MaskHistory(nodes, id)
    decreases nodes
  {
    if nodes != [] {
      if nodes[0].node.nodeId != id && !nodes[0].childrenNull {
        SetHistoryOnlyFlags(nodes[0].children, id, checked);
      }
      SetHistoryOnlyFlags(nodes[1..], id, checked);
      var r := SetHistory(nodes, id, checked);
      assert r[1..] == SetHistory(nodes[1..], id, checked);
    }
  }

  /** A matching node keeps its whole subtree; only its own flag changes. */
  lemma {:induction false} SetHistoryStopsAtMatch(nodes: seq<UiNode>, id: string, checked: bool, i: nat)
    requires i < |nodes| && nodes[i].node.nodeId == id
    ensures i < |SetHistory(nodes, id, checked)|
    ensures SetHistory(nodes, id, checked)[i] == nodes[i].(node := nodes[i].node.(historyEnabled := checked))
    decreases nodes
  {
    if i > 0 {
      SetHistoryStopsAtMatch(nodes[1..], id, checked, i - 1);
      var r := SetHistory(nodes, id, checked);
      assert r[1..] == SetHistory(nodes[1..], id, checked);
      assert r[i] == r[1..][i - 1];
    }
  }

  /** A node with another id keeps its own record, history flag included. */
  lemma {:induction false} SetHistoryKeepsOthers(nodes: seq<UiNode>, id: string, checked: bool, i: nat)
    requires i < |nodes| && nodes[i].node.nodeId != id
    ensures i < |SetHistory(nodes, id, checked)|
    ensures SetHistory(nodes, id, checked)[i].node == nodes[i].node
    decreases nodes
  {
    var r := SetHistory(nodes, id, checked);
    if i > 0 {
      SetHistoryKeepsOthers(nodes[1..], id, checked, i - 1);
      assert r[1..] == SetHistory(nodes[1..], id, checked);
      assert r[i] == r[1..][i - 1];
    }
  }

  /** An id that occurs nowhere leaves the tree as it was. */
  lemma {:induction false} SetHistoryAbsent(nodes: seq<UiNode>, id: string, checked: bool)
    requires !Occurs(nodes, id)
    ensures SetHistory(nodes, id, checked) == nodes
    decreases nodes
  {
    if nodes != [] {
      if !nodes[0].childrenNull {
        SetHistoryAbsent(nodes[0].children, id, checked);
      }
      SetHistoryAbsent(nodes[1..], id, checked);
      assert [nodes[0]] + nodes[1..] == nodes;
    }
  }

  /** Applying the same update twice is applying it once. */
  lemma {:induction false} SetHistoryIdempotent(nodes: seq<UiNode>, id: string, checked: bool)
    ensures SetHistory(SetHistory(nodes, id, checked), id, checked) == SetHistory(nodes, id, checked)
    decreases nodes
  {
    if nodes != [] {
      if nodes[0].node.nodeId != id && !nodes[0].childrenNull {
        SetHistoryIdempotent(nodes[0].children, id, checked);
      }
      SetHistoryIdempotent(nodes[1..], id, checked);
      var r := SetHistory(nodes, id, checked);
      assert r[1..] == SetHistory(nodes[1..], id, checked);
      assert r == [r[0]] + r[1..];
    }
  }

  /** `toggleExpansion`: a copy of the expanded set with the id removed if present and added otherwise. */
  function ToggleExpansion(expanded: set<string>, id: string): (r: set<string>)
    ensures id in r <==> id !in expanded
    ensures forall other :: other != id ==> (other in r <==> other in expanded)
  {
    if id in expanded then expanded - {id} else expanded + {id}
  }

  /** Toggling the same node twice restores the set. */
  lemma ToggleTwice(expanded: set<string>, id: string)
    ensures ToggleExpansion(ToggleExpansion(expanded, id), id) == expanded
  {
  }
}

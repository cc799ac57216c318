/**
 The menu reads: the lazy slice of one level, and the public tree.
 */
module MenuReads {
  import opened Common
  import opened Schema
  import opened MenuTree
  import opened MenuForest
  import MenuVerbs

  const LIMIT_MAX := 500

  datatype ReadError = InvalidInput | NotFound

  /** The live menus of a website. */
  function LiveRows(t: Tables, w: Uuid): Rows {
    map m | m in t.menus && t.menus[m].live && t.menus[m].website == w :: t.menus[m]
  }

  method TreeAdmin(t: Tables, w: Uuid) returns (forest: seq<Node>)
    ensures IsForest(LiveRows(t, w), forest)
  {
    forest := BuildTree(LiveRows(t, w));
  }

  // ---- the slice ----

  datatype HierarchyNode = HierarchyNode(id: Uuid, row: Menu, childCount: nat)

  datatype Slice = Slice(parent: Option<HierarchyNode>, children: seq<HierarchyNode>, truncated: bool)

  /** Live rows under the menu, of any website. */
  function ChildCount(t: Tables, id: Uuid): nat {
    |MenuVerbs.LiveChildren(t.menus, id)|
  }

  function SliceIds(t: Tables, w: Uuid, parent: Option<Uuid>): set<Uuid> {
    set m | m in t.menus && t.menus[m].website == w && t.menus[m].parent == parent && t.menus[m].live
  }

  function Leaves(rows: Rows, ids: seq<Uuid>): (nodes: seq<Node>)
    requires forall id :: id in ids ==> id in rows
    ensures |nodes| == |ids| && forall i :: 0 <= i < |ids| ==> nodes[i] == Leaf(rows, ids[i])
  {
    seq(|ids|, i requires 0 <= i < |ids| => Leaf(rows, ids[i]))
  }

  /** ORDER BY sequence, id */
  function OrderedLevel(rows: Rows, ids: set<Uuid>): seq<Node>
    requires ids <= rows.Keys
  {
    SortByKey(Leaves(rows, OrderById(ids)))
  }

  lemma OrderedLevelIs(rows: Rows, ids: set<Uuid>)
    requires ids <= rows.Keys
    ensures Lists(OrderedLevel(rows, ids), ids) && InOrder(OrderedLevel(rows, ids)) && OwnRows(rows, OrderedLevel(rows, ids))
  {
    var q := OrderById(ids);
    var leaves := Leaves(rows, q);
    LeavesList(rows, q, ids);
    SortedLists(leaves, ids);
    hide SortByKey, OrderById;
    var level := OrderedLevel(rows, ids);
    forall i | 0 <= i < |level| ensures level[i].id in rows && level[i].row == rows[level[i].id] {
      assert level[i] in leaves;
    }
  }

  lemma LeavesList(rows: Rows, q: seq<Uuid>, ids: set<Uuid>)
    requires (forall x :: x in q <==> x in ids) && (forall i, j :: 0 <= i < j < |q| ==> q[i] < q[j]) && ids <= rows.Keys
    ensures Lists(Leaves(rows, q), ids)
  {
  }

  function NodeOf(t: Tables, id: Uuid, row: Menu): HierarchyNode {
    HierarchyNode(id, row, ChildCount(t, id))
  }

  function NodesOf(t: Tables, level: seq<Node>): (nodes: seq<HierarchyNode>)
    ensures |nodes| == |level| && forall i :: 0 <= i < |level| ==> nodes[i] == NodeOf(t, level[i].id, level[i].row)
  {
    seq(|level|, i requires 0 <= i < |level| => NodeOf(t, level[i].id, level[i].row))
  }

  function FirstOf<T>(s: seq<T>, n: nat): seq<T> {
    if |s| <= n then s else s[..n]
  }

  /** The level below the parent in order, cut at the limit. */
  function SliceOf(t: Tables, w: Uuid, parent: Option<Uuid>, limit: nat): (seq<HierarchyNode>, bool) {
    var level := OrderedLevel(t.menus, SliceIds(t, w, parent));
    (NodesOf(t, FirstOf(level, limit)), |level| > limit)
  }

  method HierarchyRead(t: Tables, w: Uuid, parent: Option<Uuid>, limit: int) returns (r: Result<Slice, ReadError>)
    ensures r == (
      if !(1 <= limit <= 500) then Err(InvalidInput)
      else if parent.Some? && parent.value !in LiveRows(t, w) then Err(NotFound)
      else
        var anchor := if parent.Some? then Some(NodeOf(t, parent.value, t.menus[parent.value])) else None;
        var (children, truncated) := SliceOf(t, w, parent, limit);
        Ok(Slice(anchor, children, truncated)))
  {
    if !(1 <= limit <= LIMIT_MAX) {
      return Err(InvalidInput);
    }
    var anchor := None;
    if parent.Some? {
      if parent.value !in LiveRows(t, w) {
        return Err(NotFound);
      }
      anchor := Some(NodeOf(t, parent.value, t.menus[parent.value]));
    }
    var level := OrderedLevel(t.menus, SliceIds(t, w, parent));
    var fetched := FirstOf(level, limit + 1);
    var truncated := |fetched| > limit;
    if truncated {
      fetched := fetched[..limit];
    }
    assert fetched == FirstOf(level, limit);
    return Ok(Slice(anchor, NodesOf(t, fetched), truncated));
  }

  /** A slice and a list of tree nodes name the same rows, up to the limit. */
  ghost predicate Agrees(t: Tables, slice: (seq<HierarchyNode>, bool), nodes: seq<Node>, limit: nat) {
    && slice.1 == (|nodes| > limit)
    && |slice.0| == |FirstOf(nodes, limit)|
    && forall i :: 0 <= i < |slice.0| ==> slice.0[i].id == nodes[i].id && slice.0[i].row == nodes[i].row
  }

  lemma SliceAgrees(t: Tables, w: Uuid, parent: Option<Uuid>, limit: nat, nodes: seq<Node>)
    requires Lists(nodes, SliceIds(t, w, parent)) && InOrder(nodes) && OwnRows(t.menus, nodes)
    ensures Agrees(t, SliceOf(t, w, parent, limit), nodes, limit)
  {
    var ids := SliceIds(t, w, parent);
    hide SliceIds, OrderedLevel;
    OrderedLevelIs(t.menus, ids);
    SameOrder(t.menus, OrderedLevel(t.menus, ids), nodes, ids);
  }

  /** Under any node of the officer tree the slice is the first `limit` of the node's children, truncated when there are more. */
  lemma SliceIsTheTree(t: Tables, w: Uuid, forest: seq<Node>, node: Node, limit: nat)
    requires IsForest(LiveRows(t, w), forest) && Occurs(node, forest)
    ensures Agrees(t, SliceOf(t, w, Some(node.id), limit), node.children, limit)
  {
    var rows := LiveRows(t, w);
    OccursIsTree(rows, node, forest);
    assert Kids(rows, node.id) == SliceIds(t, w, Some(node.id));
    TreesOwnRows(rows, node.children, Kids(rows, node.id));
    hide IsTree, Kids, SliceIds, LiveRows;
    OwnRowsInTable(t, w, node.children);
    SliceAgrees(t, w, Some(node.id), limit, node.children);
  }

  /**
   The child count of a node of the officer tree is the number of its children there exactly when no
   live menu of another website stands under it.
   */
  lemma ChildCountIsTheTreeIff(t: Tables, w: Uuid, forest: seq<Node>, node: Node)
    requires IsForest(LiveRows(t, w), forest) && Occurs(node, forest)
    ensures ChildCount(t, node.id) == |node.children|
      <==> forall m :: m in t.menus && t.menus[m].live && t.menus[m].parent == Some(node.id) ==> t.menus[m].website == w
  {
    var rows, own := LiveRows(t, w), SliceIds(t, w, Some(node.id));
    OccursIsTree(rows, node, forest);
    assert Kids(rows, node.id) == own;
    assert Lists(node.children, own);
    hide IsTree, IsForest, Kids, LiveRows, Occurs;
    ListsSize(node.children, own);
    OwnChildren(t, w, node.id);
  }

  lemma OwnChildren(t: Tables, w: Uuid, id: Uuid)
    ensures |MenuVerbs.LiveChildren(t.menus, id)| == |SliceIds(t, w, Some(id))|
      <==> forall m :: m in t.menus && t.menus[m].live && t.menus[m].parent == Some(id) ==> t.menus[m].website == w
  {
    var all, own := MenuVerbs.LiveChildren(t.menus, id), SliceIds(t, w, Some(id));
    SubsetSize(own, all);
    assert own == all <==> forall m :: m in all ==> t.menus[m].website == w;
  }

  lemma {:induction false} ListsSize(nodes: seq<Node>, ids: set<Uuid>)
    requires Lists(nodes, ids)
    ensures |nodes| == |ids|
    decreases |nodes|
  {
    EmptyListing(nodes, ids);
    if nodes != [] {
      ListsTail(nodes, ids);
      ListsSize(nodes[1..], ids - {nodes[0].id});
      assert nodes[0].id in ids;
    }
  }

  lemma OwnRowsInTable(t: Tables, w: Uuid, nodes: seq<Node>)
    requires OwnRows(LiveRows(t, w), nodes)
    ensures OwnRows(t.menus, nodes)
  {
  }

  /** The roots that have no parent at all; the others' parent is dead or on another website. */
  function TopLevel(nodes: seq<Node>): (r: seq<Node>)
    ensures forall n :: n in r <==> n in nodes && n.row.parent.None?
  {
    if nodes == [] then [] else (if nodes[0].row.parent.None? then [nodes[0]] else []) + TopLevel(nodes[1..])
  }

  lemma {:induction false} TopLevelInOrder(nodes: seq<Node>)
    requires InOrder(nodes)
    ensures InOrder(TopLevel(nodes))
    decreases |nodes|
  {
    if nodes != [] {
      var rest, tail := nodes[1..], TopLevel(nodes[1..]);
      TopLevelInOrder(rest);
      forall i | 0 <= i < |tail| ensures KeyLess(nodes[0], tail[i]) {
        assert tail[i] in tail;
        var j :| 0 <= j < |rest| && rest[j] == tail[i];
        assert KeyLess(nodes[0], nodes[j + 1]);
      }
    }
  }

  lemma OrderedIdsDiffer(rows: Rows, nodes: seq<Node>)
    requires OwnRows(rows, nodes) && InOrder(nodes)
    ensures DistinctIds(nodes)
  {
  }

  /** The root slice is the first `limit` of the tree's roots that have no parent. */
  lemma RootSliceIsTheTree(t: Tables, w: Uuid, forest: seq<Node>, limit: nat)
    requires IsForest(LiveRows(t, w), forest)
    ensures Agrees(t, SliceOf(t, w, None, limit), TopLevel(forest), limit)
  {
    var rows, top := LiveRows(t, w), TopLevel(forest);
    TreesOwnRows(rows, forest, Roots(rows));
    TopLevelInOrder(forest);
    OwnRowsInTable(t, w, forest);
    TopOwnRows(t, forest);
    OrderedIdsDiffer(t.menus, top);
    TopListsRoots(t, w, forest);
    SliceAgrees(t, w, None, limit, top);
  }

  lemma TopOwnRows(t: Tables, nodes: seq<Node>)
    requires OwnRows(t.menus, nodes)
    ensures OwnRows(t.menus, TopLevel(nodes))
  {
  }

  lemma TopListsRoots(t: Tables, w: Uuid, forest: seq<Node>)
    requires IsForest(LiveRows(t, w), forest) && OwnRows(LiveRows(t, w), forest) && DistinctIds(TopLevel(forest))
    ensures Lists(TopLevel(forest), SliceIds(t, w, None))
  {
    var rows, top := LiveRows(t, w), TopLevel(forest);
    hide IsTree, TopLevel;
    forall id | id in SliceIds(t, w, None) ensures exists i :: 0 <= i < |top| && top[i].id == id {
      assert id in Roots(rows);
      var i :| 0 <= i < |forest| && forest[i].id == id;
      assert forest[i] in top;
    }
    forall i | 0 <= i < |top| ensures top[i].id in SliceIds(t, w, None) {
      assert top[i] in top;
      var j :| 0 <= j < |forest| && forest[j] == top[i];
    }
  }
}
